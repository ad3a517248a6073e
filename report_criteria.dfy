/**
 * ReportCriteriaView: the drop-down tables of the report form, and LastDayOfMonth, the last
 * second of the selected billing month.
 */
module ReportCriteria {
  import opened Wrappers
  import opened Text
  import opened Dates

  const Months: seq<string> := ["January", "February", "March", "April", "May", "June", "July",
    "August", "September", "October", "November", "December"]

  const Years: seq<string> := ["2019", "2020", "2021", "2022", "2023", "2024", "2025", "2026",
    "2027", "2028", "2029", "2030"]

  const YearEndYears: seq<string> := ["2021-2022", "2022-2023", "2023-2024", "2024-2025",
    "2025-2026", "2026-2027", "2027-2028", "2028-2029", "2029-2030"]

  /** The month list is the calendar's month names, January first. */
  lemma MonthsAreMonthNames()
    ensures |Months| == 12
    ensures forall i :: 0 <= i < 12 ==> Months[i] == MonthName(i + 1)
    ensures forall i :: 0 <= i < 12 ==> ParseMonthName(Months[i]) == Ok(i + 1)
  {
    forall i | 0 <= i < 12
      ensures ParseMonthName(Months[i]) == Ok(i + 1)
    {
      ParseMonthNameOfName(i + 1);
    }
  }

  /** Each school-year label joins two consecutive entries of the year list with a hyphen. */
  lemma YearEndYearsAreConsecutive()
    ensures |YearEndYears| + 3 == |Years|
    ensures forall i :: 0 <= i < |YearEndYears| ==> YearEndYears[i] == Years[i + 2] + "-" + Years[i + 3]
  {
  }

  /**
   * The last second of the month named `month` (any letter case) in the year `year`:
   * `new DateTime(year, month, 1)` plus a month, less a day, at 23:59:59. A month name that does
   * not parse is a FormatException; then a year that does not parse; then a date outside the
   * calendar is an ArgumentOutOfRangeException.
   */
  function LastDayOfMonth(month: string, year: string): (r: Result<DateTime>)
    ensures ParseMonthName(month).Err? ==> r == Err(FormatError)
    ensures ParseMonthName(month).Ok? && ParseInt32(year).Err? ==> r == Err(ParseInt32(year).fault)
    ensures r.Ok? ==> (ParseMonthName(month).Ok? && ParseInt32(year).Ok?
      && MonthOf(r.value) == ParseMonthName(month).value && YearOf(r.value) == ParseInt32(year).value
      && r.value % SecondsPerDay == SecondsPerDay - 1)
    ensures r.Ok? ==>
      CivilOfDay(DayOf(r.value)) == Date(YearOf(r.value), MonthOf(r.value), DaysInMonth(YearOf(r.value), MonthOf(r.value)))
    ensures ParseMonthName(month).Ok? && ParseInt32(year).Ok? ==>
      var m, y := ParseMonthName(month).value, ParseInt32(year).value;
      (r.Ok? <==> 1 <= y <= MaxYear && !(y == MaxYear && m == 12))
      && (r.Err? ==> r.fault == ArgumentOutOfRange)
  {
    match ParseMonthName(month)
    case Err(e) => Err(e)
    case Ok(m) =>
      match ParseInt32(year)
      case Err(e) => Err(e)
      case Ok(y) =>
        var r := LastSecondOfMonth(y, m);
        if r.Ok? then LastSecondOfMonthCivil(y, m); r else r
  }

  /**
   * For a month's own name and a formatted year in the calendar (December 9999 excepted), the
   * result is 23:59:59 on that month's last day, one second before the first of the next month.
   */
  lemma LastDayOfMonthOfName(m: int, y: int)
    requires 1 <= m <= 12 && 1 <= y <= MaxYear && !(y == MaxYear && m == 12)
    ensures var r := LastDayOfMonth(MonthName(m), Int32ToString(y));
      r.Ok? && CivilOfDay(DayOf(r.value)) == Date(y, m, DaysInMonth(y, m))
      && r.value % SecondsPerDay == SecondsPerDay - 1
      && r.value + 1 == (if m == 12 then FirstOfMonth(y + 1, 1) else FirstOfMonth(y, m + 1)).value
  {
    ParseMonthNameOfName(m);
    ParseInt32OfToString(y);
    LastSecondBeforeNextMonth(y, m);
  }

  /** The last days of February follow the Gregorian leap rule. */
  lemma LastDayOfFebruary(y: int)
    requires 1 <= y <= MaxYear
    ensures var r := LastDayOfMonth("February", Int32ToString(y));
      r.Ok? && CivilOfDay(DayOf(r.value)).day == (if IsLeapYear(y) then 29 else 28)
  {
    assert MonthName(2) == "February";
    LastDayOfMonthOfName(2, y);
    assert DaysInMonth(y, 2) == if IsLeapYear(y) then 29 else 28;
  }
}
