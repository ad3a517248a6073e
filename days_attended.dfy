/**
 * The "Instructional Days Attended" report: one row per student who attended at all, sorted
 * by last then first name, with the days attended in each month of the school year rounded
 * up, their total, the school's days in session above the month columns, and a grand total
 * formula; together with the school-year tables (month labels, month numbers, the
 * "2024/2025" title) that the simple variant of the report shares.
 */
module DaysAttended {
  import opened Wrappers
  import opened Text
  import opened Students
  import opened Sheets

  // ---------------------------------------------------------------- school-year tables

  /** Three-letter month names, January first. */
  const MonthAbbreviations: seq<string> :=
    ["Jan", "Feb", "Mar", "Apr", "May", "Jun", "Jul", "Aug", "Sep", "Oct", "Nov", "Dec"]

  /**
   * GetSchoolYearMonthNumbers: (month, year) for July..December of the year before
   * `endYear`, then January..June of `endYear`; `endYear - 1` is unchecked Int32 arithmetic.
   */
  function SchoolYearMonthNumbers(endYear: int): (r: seq<(int, int)>)
    ensures |r| == 12
    ensures forall k :: 0 <= k < |r| ==> 1 <= r[k].0 <= 12 && r[k].1 in {Wrap32(endYear - 1), endYear}
  {
    YearMonths(Wrap32(endYear - 1), endYear)
  }

  /** The month-number table of a school year running from July of startYear to June of endYear. */
  function YearMonths(startYear: int, endYear: int): seq<(int, int)>
  {
    [(7, startYear), (8, startYear), (9, startYear), (10, startYear), (11, startYear), (12, startYear),
     (1, endYear), (2, endYear), (3, endYear), (4, endYear), (5, endYear), (6, endYear)]
  }

  /** The twelve months of a school year, July first, each once, in calendar order. */
  lemma SchoolYearMonthNumbersCover(endYear: int)
    ensures |SchoolYearMonthNumbers(endYear)| == 12
    ensures forall k :: 0 <= k < 12 ==>
      SchoolYearMonthNumbers(endYear)[k].0 == (k + 6) % 12 + 1
      && SchoolYearMonthNumbers(endYear)[k].1 == (if k < 6 then Wrap32(endYear - 1) else endYear)
    ensures forall j, k :: 0 <= j < k < 12 ==>
      SchoolYearMonthNumbers(endYear)[j].0 != SchoolYearMonthNumbers(endYear)[k].0
  {
    var m := SchoolYearMonthNumbers(endYear);
    forall k | 0 <= k < 12
      ensures m[k].0 == (k + 6) % 12 + 1
    {
      if k < 6 { assert (k + 6) % 12 == k + 6; } else { assert (k + 6) % 12 == k - 6; }
    }
  }

  /**
   * GetSchoolYearMonths: the column labels "Jul-24" .. "Jun-25"; the first six take the
   * last digits of the formatted start year, the last six `year.Substring(2)` of the text
   * as given. Labels are built in list order, so the first failure is the one thrown.
   */
  function SchoolYearMonths(year: string): (r: Result<seq<string>>)
    ensures r.Ok? ==> |r.value| == 12 && ParseInt32(year).Ok?
    ensures r.Err? ==> r.fault == FormatError || r.fault == OverflowError || r.fault == ArgumentOutOfRange
  {
    match ParseInt32(year)
    case Err(f) => Err(f)
    case Ok(endYear) =>
      match Substring(Int32ToString(Wrap32(endYear - 1)), 2)
      case Err(f) => Err(f)
      case Ok(startDigits) =>
        match Substring(year, 2)
        case Err(f) => Err(f)
        case Ok(endDigits) => Ok(MonthLabels(startDigits, endDigits))
  }

  /** The twelve labels, July to December suffixed with startDigits and January to June with endDigits. */
  function MonthLabels(startDigits: string, endDigits: string): seq<string>
  {
    ["Jul-" + startDigits, "Aug-" + startDigits, "Sep-" + startDigits,
     "Oct-" + startDigits, "Nov-" + startDigits, "Dec-" + startDigits,
     "Jan-" + endDigits, "Feb-" + endDigits, "Mar-" + endDigits,
     "Apr-" + endDigits, "May-" + endDigits, "Jun-" + endDigits]
  }

  /**
   * Label k names the month of entry k of the table and carries the digits of that entry's
   * year: the start year's for July..December, the end year's for January..June.
   */
  lemma MonthLabelsMatchYearMonths(startYear: int, endYear: int, startDigits: string, endDigits: string)
    ensures var labels := MonthLabels(startDigits, endDigits);
      var numbers := YearMonths(startYear, endYear);
      |labels| == |numbers| == 12
      && forall k :: 0 <= k < 12 ==>
        labels[k] == MonthAbbreviations[numbers[k].0 - 1] + "-" + (if k < 6 then startDigits else endDigits)
        && numbers[k].1 == (if k < 6 then startYear else endYear)
  {
    var labels := MonthLabels(startDigits, endDigits);
    var numbers := YearMonths(startYear, endYear);
    forall k | 0 <= k < 12
      ensures labels[k] == MonthAbbreviations[numbers[k].0 - 1] + "-" + (if k < 6 then startDigits else endDigits)
        && numbers[k].1 == (if k < 6 then startYear else endYear)
    {
      match k
      case 0 => case 1 => case 2 => case 3 => case 4 => case 5 =>
      case 6 => case 7 => case 8 => case 9 => case 10 => case 11 =>
    }
  }

  /** The labels fail exactly when the year does not parse or either year has fewer than two characters. */
  lemma SchoolYearMonthsFails(year: string)
    ensures SchoolYearMonths(year).Err? <==>
      ParseInt32(year).Err?
      || |Int32ToString(Wrap32(ParseInt32(year).value - 1))| < 2
      || |year| < 2
    ensures ParseInt32(year).Ok? && SchoolYearMonths(year).Err? ==>
      SchoolYearMonths(year).fault == ArgumentOutOfRange
  {
  }

  /** A one-digit year parses, but its start year has no two-digit suffix. */
  lemma SchoolYearMonthsOfOneDigit()
    ensures SchoolYearMonths("5") == Err(ArgumentOutOfRange)
  {
    ParseInt32OfToString(5);
    assert Int32ToString(5) == "5";
    assert Int32ToString(Wrap32(5 - 1)) == "4";
  }

  /**
   * For a year written the way Int32 formats it, the labels carry the last digits of the
   * start year and of the end year; with MonthLabelsMatchYearMonths, label k names the month
   * and the year of entry k of SchoolYearMonthNumbers.
   */
  lemma SchoolYearMonthsOfYear(endYear: int)
    requires IsInt32(endYear)
    requires |Int32ToString(endYear)| >= 2 && |Int32ToString(Wrap32(endYear - 1))| >= 2
    ensures SchoolYearMonths(Int32ToString(endYear))
      == Ok(MonthLabels(Int32ToString(Wrap32(endYear - 1))[2..], Int32ToString(endYear)[2..]))
  {
    ParseInt32OfToString(endYear);
  }

  /** GetSchoolYearString: "{endYear - 1}/{endYear}", such as "2024/2025". */
  function SchoolYearString(year: string): (r: Result<string>)
    ensures r.Ok? <==> ParseInt32(year).Ok?
    ensures r.Err? ==> r.fault == ParseInt32(year).fault
  {
    match ParseInt32(year)
    case Err(f) => Err(f)
    case Ok(endYear) => Ok(YearTitle(endYear))
  }

  /** The title of the school year ending in endYear. */
  function YearTitle(endYear: int): string
  {
    Int32ToString(Wrap32(endYear - 1)) + "/" + Int32ToString(endYear)
  }

  lemma Int32ToStringHasNoSlash(i: int)
    ensures '/' !in Int32ToString(i)
  {
    var d := NatToString(if i < 0 then -i else i);
    forall k | 0 <= k < |d| ensures d[k] != '/' { assert IsDigit(d[k]); }
  }

  /** Two slash-free numbers joined by '/' split back at that '/' into the same numbers. */
  lemma SplitAtSlash(a: string, b: string, x: int, y: int)
    requires '/' !in a && '/' !in b
    requires ParseInt32(a) == Ok(x) && ParseInt32(b) == Ok(y)
    ensures var t := a + "/" + b;
      |a| < |t| && t[|a|] == '/'
      && ParseInt32(t[..|a|]) == Ok(x) && ParseInt32(t[|a| + 1..]) == Ok(y)
      && '/' !in t[..|a|] && '/' !in t[|a| + 1..]
  {
    var t := a + "/" + b;
    assert t[..|a|] == a && t[|a| + 1..] == b;
  }

  /** The title reads back as the two years: its only '/' splits it into the start and the end year. */
  lemma YearTitleParts(endYear: int)
    requires IsInt32(endYear)
    ensures var title := YearTitle(endYear);
      var i := |Int32ToString(Wrap32(endYear - 1))|;
      i < |title| && title[i] == '/'
      && ParseInt32(title[..i]) == Ok(Wrap32(endYear - 1))
      && ParseInt32(title[i + 1..]) == Ok(endYear)
      && '/' !in title[..i] && '/' !in title[i + 1..]
  {
    ParseInt32OfToString(Wrap32(endYear - 1));
    ParseInt32OfToString(endYear);
    Int32ToStringHasNoSlash(Wrap32(endYear - 1));
    Int32ToStringHasNoSlash(endYear);
    SplitAtSlash(Int32ToString(Wrap32(endYear - 1)), Int32ToString(endYear), Wrap32(endYear - 1), endYear);
  }

  // ---------------------------------------------------------------- monthly attendance

  /** What GetMonthlyAttendanceValue reports for a month: sped days, non-sped days and days in session. */
  datatype MonthDays = MonthDays(spedDays: real, nonSpedDays: real, daysInSession: real)

  /** A student's attendance lookup for (month, year); Err when it throws. */
  type AttendanceLookup = (StudentData, int, int) -> Result<MonthDays>

  /** Math.Ceiling on a decimal: the least integer not below x. */
  function Ceiling(x: real): (c: int)
    ensures c as real - 1.0 < x <= c as real
  {
    if x.Floor as real == x then x.Floor else x.Floor + 1
  }

  /**
   * GetStudentMonthlyAttendance: the days attended in the month rounded up, and the days in
   * session; both 0 when the lookup throws.
   */
  function MonthlyAttendance(s: StudentData, month: int, year: int, attendance: AttendanceLookup): (r: (int, real))
    ensures attendance(s, month, year).Err? ==> r == (0, 0.0)
    ensures attendance(s, month, year).Ok? ==>
      var d := attendance(s, month, year).value;
      r.1 == d.daysInSession && r.0 as real - 1.0 < d.spedDays + d.nonSpedDays <= r.0 as real
  {
    match attendance(s, month, year)
    case Err(_) => (0, 0.0)
    case Ok(d) => (Ceiling(d.spedDays + d.nonSpedDays), d.daysInSession)
  }

  /** The (days attended, days in session) pairs of the twelve months of the school year ending in `year`. */
  function MonthValues(s: StudentData, year: int, attendance: AttendanceLookup): (vals: seq<(int, real)>)
    ensures |vals| == 12
  {
    var months := SchoolYearMonthNumbers(year);
    seq(12, k requires 0 <= k < 12 => MonthlyAttendance(s, months[k].0, months[k].1, attendance))
  }

  /** The sum of the days attended. */
  function SumDays(vals: seq<(int, real)>): int
  {
    if vals == [] then 0 else SumDays(vals[..|vals| - 1]) + vals[|vals| - 1].0
  }

  /** The sum of the days in session. */
  function SumSession(vals: seq<(int, real)>): real
  {
    if vals == [] then 0.0 else SumSession(vals[..|vals| - 1]) + vals[|vals| - 1].1
  }

  // ---------------------------------------------------------------- one student's cells

  /** The header row that holds the school's days in session. */
  const SessionRow := 4

  /**
   * The cells the month loop writes for the first n months: the days attended in row `row`
   * from column `firstColumn` on, each followed, when `withSession`, by the days in session
   * in the same column of SessionRow.
   */
  function MonthCells(vals: seq<(int, real)>, row: int, firstColumn: int, withSession: bool, n: nat): seq<GridWrite>
    requires n <= |vals|
  {
    if n == 0 then []
    else
      MonthCells(vals, row, firstColumn, withSession, n - 1)
      + [GridWrite(row, firstColumn + n - 1, NumberValue(vals[n - 1].0 as real))]
      + (if withSession then [GridWrite(SessionRow, firstColumn + n - 1, NumberValue(vals[n - 1].1))] else [])
  }

  /**
   * The month cells lie in columns firstColumn .. firstColumn + n - 1, in row `row` or (with
   * the days in session) SessionRow: one cell per month, two with the days in session.
   */
  lemma {:induction false} MonthCellsPlacement(vals: seq<(int, real)>, row: int, firstColumn: int, withSession: bool, n: nat)
    requires n <= |vals|
    ensures var cells := MonthCells(vals, row, firstColumn, withSession, n);
      |cells| == (if withSession then 2 * n else n)
      && forall c :: c in cells ==>
        firstColumn <= c.column < firstColumn + n && (c.row == row || (withSession && c.row == SessionRow))
  {
    if n > 0 {
      MonthCellsPlacement(vals, row, firstColumn, withSession, n - 1);
    }
  }

  /** Every month's days attended are written in its own column. */
  lemma {:induction false} MonthCellsDays(vals: seq<(int, real)>, row: int, firstColumn: int, withSession: bool, n: nat)
    requires n <= |vals|
    ensures forall k :: 0 <= k < n ==>
      GridWrite(row, firstColumn + k, NumberValue(vals[k].0 as real)) in MonthCells(vals, row, firstColumn, withSession, n)
  {
    if n > 0 {
      var prev := MonthCells(vals, row, firstColumn, withSession, n - 1);
      var cells := MonthCells(vals, row, firstColumn, withSession, n);
      MonthCellsDays(vals, row, firstColumn, withSession, n - 1);
      assert cells[|prev|] == GridWrite(row, firstColumn + n - 1, NumberValue(vals[n - 1].0 as real));
      forall k | 0 <= k < n - 1
        ensures GridWrite(row, firstColumn + k, NumberValue(vals[k].0 as real)) in cells
      {
        var j :| 0 <= j < |prev| && prev[j] == GridWrite(row, firstColumn + k, NumberValue(vals[k].0 as real));
        assert cells[j] == prev[j];
      }
    }
  }

  /** With the days in session, every month's are written above its column. */
  lemma {:induction false} MonthCellsSession(vals: seq<(int, real)>, row: int, firstColumn: int, n: nat)
    requires n <= |vals|
    ensures forall k :: 0 <= k < n ==>
      GridWrite(SessionRow, firstColumn + k, NumberValue(vals[k].1)) in MonthCells(vals, row, firstColumn, true, n)
  {
    if n > 0 {
      var prev := MonthCells(vals, row, firstColumn, true, n - 1);
      var cells := MonthCells(vals, row, firstColumn, true, n);
      MonthCellsSession(vals, row, firstColumn, n - 1);
      assert cells[|prev| + 1] == GridWrite(SessionRow, firstColumn + n - 1, NumberValue(vals[n - 1].1));
      forall k | 0 <= k < n - 1
        ensures GridWrite(SessionRow, firstColumn + k, NumberValue(vals[k].1)) in cells
      {
        var j :| 0 <= j < |prev| && prev[j] == GridWrite(SessionRow, firstColumn + k, NumberValue(vals[k].1));
        assert cells[j] == prev[j];
      }
    }
  }

  /**
   * The month loop shared by both variants of the report: for each month of the school year
   * ending in `year`, writes the days attended at (row, firstColumn + i) and, when
   * `withSession`, the days in session at (SessionRow, firstColumn + i); returns the totals.
   */
  method StudentMonths(s: StudentData, year: int, row: int, firstColumn: int, withSession: bool,
                       attendance: AttendanceLookup)
    returns (cells: seq<GridWrite>, totalDays: int, totalDaysInSession: real)
    ensures cells == MonthCells(MonthValues(s, year, attendance), row, firstColumn, withSession, 12)
    ensures totalDays == SumDays(MonthValues(s, year, attendance))
    ensures totalDaysInSession == SumSession(MonthValues(s, year, attendance))
  {
    var months := SchoolYearMonthNumbers(year);
    ghost var vals := MonthValues(s, year, attendance);
    cells := [];
    totalDays := 0;
    totalDaysInSession := 0.0;
    var i := 0;
    while i < |months|
      invariant 0 <= i <= |months| == 12
      invariant cells == MonthCells(vals, row, firstColumn, withSession, i)
      invariant totalDays == SumDays(vals[..i]) && totalDaysInSession == SumSession(vals[..i])
    {
      var (monthlyDays, daysInSession) := MonthlyAttendance(s, months[i].0, months[i].1, attendance);
      assert vals[..i + 1][..i] == vals[..i];
      cells := cells + [GridWrite(row, i + firstColumn, NumberValue(monthlyDays as real))];
      if withSession {
        cells := cells + [GridWrite(SessionRow, i + firstColumn, NumberValue(daysInSession))];
      }
      totalDays := totalDays + monthlyDays;
      totalDaysInSession := totalDaysInSession + daysInSession;
      i := i + 1;
    }
    assert vals[..12] == vals;
  }

  /** The first data row of the report. */
  const FirstDataRow := 6

  /** The column of a student's total. */
  const TotalColumn := 16

  /**
   * The cells one listed student writes: the counter, last and first name in columns A..C,
   * the months from D, the total in P; the first data row also fills the days in session
   * above them.
   */
  function StudentRowCells(s: StudentData, row: int, counter: int, vals: seq<(int, real)>): seq<GridWrite>
    requires |vals| == 12
  {
    [GridWrite(row, 1, NumberValue(counter as real)),
     GridWrite(row, 2, TextOrNull(s.LastName)),
     GridWrite(row, 3, TextOrNull(s.FirstName))]
    + MonthCells(vals, row, 4, row == FirstDataRow, 12)
    + [GridWrite(row, TotalColumn, NumberValue(SumDays(vals) as real))]
    + (if row == FirstDataRow then [GridWrite(SessionRow, TotalColumn, NumberValue(SumSession(vals)))] else [])
  }

  /** One pass of the student loop: the row of a listed student. */
  method AddStudentRow(s: StudentData, year: int, row: int, counter: int, attendance: AttendanceLookup)
    returns (cells: seq<GridWrite>)
    ensures cells == StudentRowCells(s, row, counter, MonthValues(s, year, attendance))
  {
    cells := [GridWrite(row, 1, NumberValue(counter as real)),
              GridWrite(row, 2, TextOrNull(s.LastName)),
              GridWrite(row, 3, TextOrNull(s.FirstName))];
    var monthCells, totalDays, totalDaysInSession := StudentMonths(s, year, row, 4, row == FirstDataRow, attendance);
    cells := cells + monthCells + [GridWrite(row, TotalColumn, NumberValue(totalDays as real))];
    if row == FirstDataRow {
      cells := cells + [GridWrite(SessionRow, TotalColumn, NumberValue(totalDaysInSession))];
    }
  }

  /**
   * A student's row holds its counter, its names, every month's days attended and their
   * total in columns A..P of its own row, and nothing elsewhere except, in the first data
   * row, the days in session in SessionRow.
   */
  lemma StudentRowCellsLayout(s: StudentData, row: int, counter: int, vals: seq<(int, real)>)
    requires |vals| == 12
    ensures var cells := StudentRowCells(s, row, counter, vals);
      (forall c :: c in cells ==>
        1 <= c.column <= TotalColumn && (c.row == row || (row == FirstDataRow && c.row == SessionRow)))
      && GridWrite(row, 1, NumberValue(counter as real)) in cells
      && GridWrite(row, TotalColumn, NumberValue(SumDays(vals) as real)) in cells
      && (forall k :: 0 <= k < 12 ==> GridWrite(row, 4 + k, NumberValue(vals[k].0 as real)) in cells)
  {
    MonthCellsPlacement(vals, row, 4, row == FirstDataRow, 12);
    MonthCellsDays(vals, row, 4, row == FirstDataRow, 12);
  }

  /**
   * The first data row also fills the header row SessionRow: each month's days in session
   * above its column, and their sum above the total.
   */
  lemma FirstRowFillsSession(s: StudentData, vals: seq<(int, real)>)
    requires |vals| == 12
    ensures var cells := StudentRowCells(s, FirstDataRow, 1, vals);
      (forall k :: 0 <= k < 12 ==> GridWrite(SessionRow, 4 + k, NumberValue(vals[k].1)) in cells)
      && GridWrite(SessionRow, TotalColumn, NumberValue(SumSession(vals))) in cells
  {
    MonthCellsSession(vals, FirstDataRow, 4, 12);
  }

  // ---------------------------------------------------------------- ordering by name

  /** Comparer<string>.Default as an ordinal order: strictly before, null first. */
  predicate OptLess(a: Option<string>, b: Option<string>)
  {
    OptLexLeq(a, b) && a != b
  }

  /** OrderBy(s => s.LastName).ThenBy(s => s.FirstName): a strictly before b. */
  predicate NameLess(a: StudentData, b: StudentData)
  {
    OptLess(a.LastName, b.LastName) || (a.LastName == b.LastName && OptLess(a.FirstName, b.FirstName))
  }

  lemma OptLexLeqTotal(a: Option<string>, b: Option<string>)
    ensures OptLexLeq(a, b) || OptLexLeq(b, a)
  {
    if a.Some? && b.Some? { LexLeqTotal(a.value, b.value); }
  }

  lemma OptLexLeqTransitive(a: Option<string>, b: Option<string>, c: Option<string>)
    requires OptLexLeq(a, b) && OptLexLeq(b, c)
    ensures OptLexLeq(a, c)
  {
    if a.Some? { LexLeqTransitive(a.value, b.value, c.value); }
  }

  lemma OptLexLeqAntisymmetric(a: Option<string>, b: Option<string>)
    requires OptLexLeq(a, b) && OptLexLeq(b, a)
    ensures a == b
  {
    if a.Some? { LexLeqAntisymmetric(a.value, b.value); }
  }

  /** Not strictly after is at most: !(b < a) gives a <= b. */
  lemma NotOptLess(a: Option<string>, b: Option<string>)
    requires !OptLess(b, a)
    ensures OptLexLeq(a, b)
  {
    OptLexLeqTotal(a, b);
    if a == b { OptLexLeqTotal(a, a); }
  }

  /** "Not strictly before" on names is transitive. */
  lemma NameLeqTransitive(a: StudentData, b: StudentData, c: StudentData)
    requires !NameLess(b, a) && !NameLess(c, b)
    ensures !NameLess(c, a)
  {
    NotOptLess(a.LastName, b.LastName);
    NotOptLess(b.LastName, c.LastName);
    OptLexLeqTransitive(a.LastName, b.LastName, c.LastName);
    if NameLess(c, a) {
      if OptLess(c.LastName, a.LastName) {
        OptLexLeqAntisymmetric(a.LastName, c.LastName);
      } else {
        OptLexLeqAntisymmetric(a.LastName, b.LastName);
        NotOptLess(a.FirstName, b.FirstName);
        NotOptLess(b.FirstName, c.FirstName);
        OptLexLeqTransitive(a.FirstName, b.FirstName, c.FirstName);
        OptLexLeqAntisymmetric(a.FirstName, c.FirstName);
      }
    }
  }

  lemma NameLessAsymmetric(a: StudentData, b: StudentData)
    requires NameLess(a, b)
    ensures !NameLess(b, a)
  {
    if NameLess(b, a) {
      if OptLess(a.LastName, b.LastName) {
        OptLexLeqAntisymmetric(a.LastName, b.LastName);
      } else {
        OptLexLeqAntisymmetric(a.FirstName, b.FirstName);
      }
    }
  }

  /** No student comes after a later one. */
  predicate SortedByName(s: seq<StudentData>)
  {
    forall i, j :: 0 <= i < j < |s| ==> !NameLess(s[j], s[i])
  }

  /** Inserts x after every element not strictly after it. */
  function InsertByName(sorted: seq<StudentData>, x: StudentData): (r: seq<StudentData>)
    ensures |r| == |sorted| + 1
  {
    if sorted == [] || !NameLess(x, sorted[|sorted| - 1]) then sorted + [x]
    else InsertByName(sorted[..|sorted| - 1], x) + [sorted[|sorted| - 1]]
  }

  /** The students ordered by last name, then first name. */
  function SortByName(s: seq<StudentData>): (r: seq<StudentData>)
    ensures |r| == |s|
  {
    if s == [] then [] else InsertByName(SortByName(s[..|s| - 1]), s[|s| - 1])
  }

  lemma {:induction false} InsertByNamePermutes(sorted: seq<StudentData>, x: StudentData)
    ensures multiset(InsertByName(sorted, x)) == multiset(sorted) + multiset{x}
  {
    if sorted != [] && NameLess(x, sorted[|sorted| - 1]) {
      var front := sorted[..|sorted| - 1];
      InsertByNamePermutes(front, x);
      assert multiset(sorted) == multiset(front) + multiset{sorted[|sorted| - 1]} by {
        assert sorted == front + [sorted[|sorted| - 1]];
      }
    }
  }

  /** Every element of s is at most y. */
  predicate AllAtMost(s: seq<StudentData>, y: StudentData)
  {
    forall i :: 0 <= i < |s| ==> !NameLess(y, s[i])
  }

  lemma AppendSorted(s: seq<StudentData>, y: StudentData)
    requires SortedByName(s) && AllAtMost(s, y)
    ensures SortedByName(s + [y])
  {
    var t := s + [y];
    forall i, j | 0 <= i < j < |t| ensures !NameLess(t[j], t[i])
    {
      if j < |s| { assert t[i] == s[i] && t[j] == s[j]; } else { assert t[i] == s[i]; }
    }
  }

  /** Inserting x before `last` leaves every element at most `last`. */
  lemma InsertedAtMost(front: seq<StudentData>, x: StudentData, last: StudentData)
    requires AllAtMost(front, last) && NameLess(x, last)
    ensures AllAtMost(InsertByName(front, x), last)
  {
    var ins := InsertByName(front, x);
    InsertByNamePermutes(front, x);
    forall i | 0 <= i < |ins| ensures !NameLess(last, ins[i])
    {
      assert ins[i] in multiset(ins);
      if ins[i] == x {
        NameLessAsymmetric(x, last);
      } else {
        assert ins[i] in multiset(front);
        var j :| 0 <= j < |front| && front[j] == ins[i];
      }
    }
  }

  lemma {:induction false} InsertByNameSorted(sorted: seq<StudentData>, x: StudentData)
    requires SortedByName(sorted)
    ensures SortedByName(InsertByName(sorted, x))
  {
    var n := |sorted|;
    if n == 0 {
    } else if !NameLess(x, sorted[n - 1]) {
      forall i | 0 <= i < n ensures !NameLess(x, sorted[i])
      {
        if i < n - 1 { NameLeqTransitive(sorted[i], sorted[n - 1], x); }
      }
      AppendSorted(sorted, x);
    } else {
      var front := sorted[..n - 1];
      var last := sorted[n - 1];
      InsertByNameSorted(front, x);
      assert AllAtMost(front, last) by {
        forall i | 0 <= i < |front| ensures !NameLess(last, front[i]) { assert front[i] == sorted[i]; }
      }
      InsertedAtMost(front, x, last);
      AppendSorted(InsertByName(front, x), last);
    }
  }

  /** The name order sorts the students. */
  lemma {:induction false} SortByNameSorted(s: seq<StudentData>)
    ensures SortedByName(SortByName(s))
  {
    if s != [] {
      SortByNameSorted(s[..|s| - 1]);
      InsertByNameSorted(SortByName(s[..|s| - 1]), s[|s| - 1]);
    }
  }

  /** The name order keeps every student, as often as it occurs. */
  lemma {:induction false} SortByNamePermutes(s: seq<StudentData>)
    ensures multiset(SortByName(s)) == multiset(s)
  {
    if s != [] {
      var front, last := s[..|s| - 1], s[|s| - 1];
      SortByNamePermutes(front);
      assert SortByName(s) == InsertByName(SortByName(front), last);
      InsertByNamePermutes(SortByName(front), last);
      assert s == front + [last];
    }
  }

  // ---------------------------------------------------------------- the report rows

  /** GetYearlyAttendanceValue for the year: a student's sped and non-sped days. */
  type YearlyLookup = (StudentData, int) -> (real, real)

  /** Whether the student attended at all in the year; the report skips students whose yearly days sum to 0. */
  predicate Attended(s: StudentData, year: int, yearly: YearlyLookup)
  {
    yearly(s, year).0 + yearly(s, year).1 != 0.0
  }

  /** The students the report lists, in the given order. */
  function Listed(students: seq<StudentData>, year: int, yearly: YearlyLookup): (r: seq<StudentData>)
    ensures |r| <= |students|
  {
    if students == [] then []
    else
      var s := students[|students| - 1];
      Listed(students[..|students| - 1], year, yearly) + (if Attended(s, year, yearly) then [s] else [])
  }

  lemma ListedStep(students: seq<StudentData>, year: int, yearly: YearlyLookup, n: nat)
    requires n < |students|
    ensures Listed(students[..n + 1], year, yearly)
      == Listed(students[..n], year, yearly) + (if Attended(students[n], year, yearly) then [students[n]] else [])
  {
    assert students[..n + 1][..n] == students[..n];
  }

  /** A student is listed exactly when it is among the students and attended in the year. */
  lemma {:induction false} ListedMembers(students: seq<StudentData>, year: int, yearly: YearlyLookup)
    ensures forall x :: x in Listed(students, year, yearly) <==> x in students && Attended(x, year, yearly)
  {
    if students != [] {
      ListedMembers(students[..|students| - 1], year, yearly);
      assert students == students[..|students| - 1] + [students[|students| - 1]];
    }
  }

  /** Dropping students keeps the name order. */
  lemma {:induction false} ListedSorted(students: seq<StudentData>, year: int, yearly: YearlyLookup)
    requires SortedByName(students)
    ensures SortedByName(Listed(students, year, yearly))
  {
    if students != [] {
      var n := |students|;
      var front := students[..n - 1];
      var last := students[n - 1];
      ListedSorted(front, year, yearly);
      if Attended(last, year, yearly) {
        var l := Listed(front, year, yearly);
        ListedMembers(front, year, yearly);
        forall i | 0 <= i < |l| ensures !NameLess(last, l[i])
        {
          assert l[i] in front;
          var j :| 0 <= j < |front| && front[j] == l[i];
          assert students[j] == l[i];
        }
        AppendSorted(l, last);
      }
    }
  }

  /** The cells of the listed students: the k-th in row FirstDataRow + k with counter k + 1. */
  function DataCells(listed: seq<StudentData>, year: int, attendance: AttendanceLookup): seq<GridWrite>
  {
    if listed == [] then []
    else
      var n := |listed|;
      DataCells(listed[..n - 1], year, attendance)
      + StudentRowCells(listed[n - 1], FirstDataRow + n - 1, n, MonthValues(listed[n - 1], year, attendance))
  }

  lemma DataCellsStep(listed: seq<StudentData>, year: int, attendance: AttendanceLookup, n: nat)
    requires n < |listed|
    ensures DataCells(listed[..n + 1], year, attendance)
      == DataCells(listed[..n], year, attendance)
        + StudentRowCells(listed[n], FirstDataRow + n, n + 1, MonthValues(listed[n], year, attendance))
  {
    assert listed[..n + 1][..n] == listed[..n];
  }

  /** The cells of the k-th listed student. */
  function RowOf(listed: seq<StudentData>, year: int, attendance: AttendanceLookup, k: nat): seq<GridWrite>
    requires k < |listed|
  {
    StudentRowCells(listed[k], FirstDataRow + k, k + 1, MonthValues(listed[k], year, attendance))
  }

  /** The data cells lie in the rows of the listed students or in SessionRow. */
  lemma {:induction false} DataCellsRows(listed: seq<StudentData>, year: int, attendance: AttendanceLookup)
    ensures forall c :: c in DataCells(listed, year, attendance) ==>
      c.row == SessionRow || FirstDataRow <= c.row < FirstDataRow + |listed|
  {
    if listed != [] {
      var n := |listed|;
      DataCellsRows(listed[..n - 1], year, attendance);
      StudentRowCellsLayout(listed[n - 1], FirstDataRow + n - 1, n, MonthValues(listed[n - 1], year, attendance));
    }
  }

  /** Every listed student's cells are written. */
  lemma {:induction false} DataCellsHoldRows(listed: seq<StudentData>, year: int, attendance: AttendanceLookup)
    ensures forall k, c :: 0 <= k < |listed| && c in RowOf(listed, year, attendance, k) ==>
      c in DataCells(listed, year, attendance)
  {
    if listed != [] {
      var n := |listed|;
      var front := listed[..n - 1];
      DataCellsHoldRows(front, year, attendance);
      forall k | 0 <= k < n - 1 ensures RowOf(front, year, attendance, k) == RowOf(listed, year, attendance, k)
      {
        assert front[k] == listed[k];
      }
    }
  }

  /** A cell in the k-th student's row is that student's. */
  lemma {:induction false} DataCellsRowIsStudents(listed: seq<StudentData>, year: int, attendance: AttendanceLookup)
    ensures forall k, c :: 0 <= k < |listed| && c in DataCells(listed, year, attendance) && c.row == FirstDataRow + k ==>
      c in RowOf(listed, year, attendance, k)
  {
    if listed != [] {
      var n := |listed|;
      var front := listed[..n - 1];
      DataCellsRowIsStudents(front, year, attendance);
      DataCellsRows(front, year, attendance);
      StudentRowCellsLayout(listed[n - 1], FirstDataRow + n - 1, n, MonthValues(listed[n - 1], year, attendance));
      forall k | 0 <= k < n - 1 ensures RowOf(front, year, attendance, k) == RowOf(listed, year, attendance, k)
      {
        assert front[k] == listed[k];
      }
    }
  }

  /** The days in session come from the first listed student alone. */
  lemma {:induction false} DataCellsSessionFromFirst(listed: seq<StudentData>, year: int, attendance: AttendanceLookup)
    ensures forall c :: c in DataCells(listed, year, attendance) && c.row == SessionRow ==>
      c in RowOf(listed, year, attendance, 0)
  {
    if listed != [] {
      var n := |listed|;
      var front := listed[..n - 1];
      DataCellsSessionFromFirst(front, year, attendance);
      StudentRowCellsLayout(listed[n - 1], FirstDataRow + n - 1, n, MonthValues(listed[n - 1], year, attendance));
      if n > 1 {
        assert front[0] == listed[0];
        assert RowOf(front, year, attendance, 0) == RowOf(listed, year, attendance, 0);
      }
    }
  }

  // ---------------------------------------------------------------- grand totals

  /** The formula summing `column` over rows fromRow..toRow, such as "SUM(P5:P9)". */
  function SumFormula(column: int, fromRow: nat, toRow: nat): string
    requires 1 <= column <= 26
  {
    "SUM(" + Address(fromRow, column) + ":" + Address(toRow, column) + ")"
  }

  /**
   * The grand-total loop shared by both variants of the report: for each column from
   * firstColumn to lastColumn, the formula summing that column over rows 5..lastRow, in row `row`.
   */
  method TotalFormulas(row: int, firstColumn: int, lastColumn: int, lastRow: nat) returns (cells: seq<GridWrite>)
    requires 1 <= firstColumn <= lastColumn <= 26
    ensures |cells| == lastColumn - firstColumn + 1
    ensures forall k :: 0 <= k < |cells| ==>
      cells[k] == GridWrite(row, firstColumn + k, FormulaValue(SumFormula(firstColumn + k, 5, lastRow)))
  {
    cells := [];
    var col := firstColumn;
    while col <= lastColumn
      invariant firstColumn <= col <= lastColumn + 1
      invariant |cells| == col - firstColumn
      invariant forall k :: 0 <= k < |cells| ==>
        cells[k] == GridWrite(row, firstColumn + k, FormulaValue(SumFormula(firstColumn + k, 5, lastRow)))
    {
      cells := cells + [GridWrite(row, col, FormulaValue(SumFormula(col, 5, lastRow)))];
      col := col + 1;
    }
  }

  /** AddGrandTotalRow: the total column's formula over rows 5 .. row - 1, in row `row`. */
  method AddGrandTotalRow(row: int) returns (cells: seq<GridWrite>)
    requires row >= 1
    ensures cells == [GridWrite(row, TotalColumn, FormulaValue(SumFormula(TotalColumn, 5, row - 1)))]
  {
    cells := TotalFormulas(row, TotalColumn, TotalColumn, row - 1);
  }

  // ---------------------------------------------------------------- PopulateStudentData

  /** What PopulateStudentData writes and returns once the year has parsed. */
  function ReportCells(students: seq<StudentData>, year: int, yearly: YearlyLookup, attendance: AttendanceLookup)
    : (seq<GridWrite>, int)
  {
    ReportOf(Listed(SortByName(students), year, yearly), year, attendance)
  }

  /** The cells and the count for the listed students: their rows, then the grand total if there are any. */
  function ReportOf(listed: seq<StudentData>, year: int, attendance: AttendanceLookup): (seq<GridWrite>, int)
  {
    var row := FirstDataRow + |listed|;
    (DataCells(listed, year, attendance)
       + (if |listed| > 0 then [GridWrite(row, TotalColumn, FormulaValue(SumFormula(TotalColumn, 5, row - 1)))] else []),
     if |listed| > 0 then |listed| + 1 else 0)
  }

  /**
   * PopulateStudentData: parses the year, sorts the students by name, writes a row for each
   * one who attended, then, if any did, the grand total in the row below; returns the
   * counter past the last listed student, or 0 when none was listed.
   */
  method PopulateStudentData(students: seq<StudentData>, criteriaYear: string, yearly: YearlyLookup,
                             attendance: AttendanceLookup)
    returns (r: Result<(seq<GridWrite>, int)>)
    ensures ParseInt32(criteriaYear).Err? ==> r == Err(ParseInt32(criteriaYear).fault)
    ensures ParseInt32(criteriaYear).Ok? ==> r == Ok(ReportCells(students, ParseInt32(criteriaYear).value, yearly, attendance))
  {
    var parsed := ParseInt32(criteriaYear);
    if parsed.Err? {
      return Err(parsed.fault);
    }
    var year := parsed.value;
    var sorted := SortByName(students);
    var cells, currentRow, studentCounter := ListStudents(sorted, year, yearly, attendance);
    var report := FinishReport(Listed(sorted, year, yearly), year, attendance, cells, currentRow, studentCounter);
    return Ok(report);
  }

  /** The student loop of PopulateStudentData, from the first data row and counter 1. */
  method ListStudents(sorted: seq<StudentData>, year: int, yearly: YearlyLookup, attendance: AttendanceLookup)
    returns (cells: seq<GridWrite>, currentRow: int, studentCounter: int)
    ensures cells == DataCells(Listed(sorted, year, yearly), year, attendance)
    ensures currentRow == FirstDataRow + |Listed(sorted, year, yearly)|
    ensures studentCounter == 1 + |Listed(sorted, year, yearly)|
  {
    currentRow := FirstDataRow;
    studentCounter := 1;
    cells := [];
    var i := 0;
    while i < |sorted|
      invariant 0 <= i <= |sorted|
      invariant cells == DataCells(Listed(sorted[..i], year, yearly), year, attendance)
      invariant currentRow == FirstDataRow + |Listed(sorted[..i], year, yearly)|
      invariant studentCounter == 1 + |Listed(sorted[..i], year, yearly)|
    {
      cells, currentRow, studentCounter := ListStudent(sorted, i, year, yearly, attendance, cells, currentRow, studentCounter);
      i := i + 1;
    }
    assert sorted[..i] == sorted;
  }

  /** The end of PopulateStudentData: the grand total row when any student was listed, and the count. */
  method FinishReport(ghost listed: seq<StudentData>, year: int, attendance: AttendanceLookup,
                      cells: seq<GridWrite>, currentRow: int, studentCounter: int)
    returns (report: (seq<GridWrite>, int))
    requires cells == DataCells(listed, year, attendance)
    requires currentRow == FirstDataRow + |listed| && studentCounter == 1 + |listed|
    ensures report == ReportOf(listed, year, attendance)
  {
    if studentCounter > 1 {
      var total := AddGrandTotalRow(currentRow);
      return (cells + total, studentCounter);
    }
    assert cells + [] == cells;
    return (cells, 0);
  }

  /** One pass of the student loop: skips a student who did not attend, otherwise writes its row. */
  method ListStudent(sorted: seq<StudentData>, i: nat, year: int, yearly: YearlyLookup, attendance: AttendanceLookup,
                     cells: seq<GridWrite>, currentRow: int, studentCounter: int)
    returns (newCells: seq<GridWrite>, newRow: int, newCounter: int)
    requires i < |sorted|
    requires cells == DataCells(Listed(sorted[..i], year, yearly), year, attendance)
    requires currentRow == FirstDataRow + |Listed(sorted[..i], year, yearly)|
    requires studentCounter == 1 + |Listed(sorted[..i], year, yearly)|
    ensures newCells == DataCells(Listed(sorted[..i + 1], year, yearly), year, attendance)
    ensures newRow == FirstDataRow + |Listed(sorted[..i + 1], year, yearly)|
    ensures newCounter == 1 + |Listed(sorted[..i + 1], year, yearly)|
  {
    var student := sorted[i];
    var (yearlySpedDays, yearlyNonSpedDays) := yearly(student, year);
    ListedStep(sorted, year, yearly, i);
    if yearlySpedDays + yearlyNonSpedDays == 0.0 {
      assert !Attended(student, year, yearly);
      ghost var before := Listed(sorted[..i], year, yearly);
      assert before + [] == before;
      return cells, currentRow, studentCounter;
    }
    var mine := AddStudentRow(student, year, currentRow, studentCounter, attendance);
    DataCellsAppend(Listed(sorted[..i], year, yearly), student, year, attendance);
    newCells := cells + mine;
    newRow := currentRow + 1;
    newCounter := studentCounter + 1;
  }

  /** Listing one more student appends its row, numbered one past the others. */
  lemma DataCellsAppend(before: seq<StudentData>, s: StudentData, year: int, attendance: AttendanceLookup)
    ensures DataCells(before + [s], year, attendance)
      == DataCells(before, year, attendance)
        + StudentRowCells(s, FirstDataRow + |before|, |before| + 1, MonthValues(s, year, attendance))
  {
    assert (before + [s])[..|before|] == before;
  }

  /** The total column's formula over rows 5 .. lastRow reads "SUM(P5:P<lastRow>)". */
  lemma TotalFormulaText(lastRow: nat)
    ensures SumFormula(TotalColumn, 5, lastRow) == "SUM(P5:P" + NatToString(lastRow) + ")"
  {
    assert NatToString(5) == "5";
    assert Address(5, TotalColumn) == "P5";
  }

  /**
   * With a student listed, the report ends with the grand total "SUM(P5:P<last data row>)"
   * in the row below the last student, and the count is one past the last counter.
   */
  lemma GrandTotalCoversRows(listed: seq<StudentData>, year: int, attendance: AttendanceLookup)
    requires |listed| > 0
    ensures var report := ReportOf(listed, year, attendance);
      var lastRow := FirstDataRow + |listed| - 1;
      report.0[|report.0| - 1] == GridWrite(lastRow + 1, TotalColumn, FormulaValue("SUM(P5:P" + NatToString(lastRow) + ")"))
      && report.0[..|report.0| - 1] == DataCells(listed, year, attendance)
      && report.1 == |listed| + 1
  {
    TotalFormulaText(FirstDataRow + |listed| - 1);
  }

  /** With no student listed, the report writes nothing and returns 0. */
  lemma NoStudentListed(year: int, attendance: AttendanceLookup)
    ensures ReportOf([], year, attendance) == ([], 0)
  {
    assert DataCells([], year, attendance) + [] == [];
  }

  /**
   * The rows list exactly the students who attended, in name order: the k-th row's student
   * is listed, sorted before the next, and every student who attended has a row.
   */
  lemma ListedStudentsAreAttendingInNameOrder(students: seq<StudentData>, year: int, yearly: YearlyLookup)
    ensures var listed := Listed(SortByName(students), year, yearly);
      SortedByName(listed)
      && (forall x :: x in listed <==> x in students && Attended(x, year, yearly))
  {
    SortByNameSorted(students);
    SortByNamePermutes(students);
    ListedSorted(SortByName(students), year, yearly);
    ListedMembers(SortByName(students), year, yearly);
    forall x ensures x in SortByName(students) <==> x in students
    {
      assert x in SortByName(students) <==> x in multiset(SortByName(students));
    }
  }
}
