/**
 * System.DateTime as the billing code uses it: an instant is a whole number of seconds since
 * 0001-01-01T00:00:00 of the proleptic Gregorian calendar (the .NET tick origin; the code never
 * looks below a second). Day 0 is a Monday.
 */
module Dates {
  import opened Wrappers
  import Text

  /** Seconds since 0001-01-01T00:00:00. */
  type DateTime = nat

  const SecondsPerDay: nat := 86400
  const MaxYear: int := 9999

  /** The day number of an instant: whole days since 0001-01-01. */
  function DayOf(t: DateTime): nat { t / SecondsPerDay }

  /** The instant at 00:00:00 of a day. */
  function Midnight(day: nat): (t: DateTime)
    ensures DayOf(t) == day && t % SecondsPerDay == 0
  {
    day * SecondsPerDay
  }

  /** An instant within a day's 86400 seconds belongs to that day. */
  lemma DayOfWithinDay(day: nat, s: nat)
    requires s < SecondsPerDay
    ensures DayOf(Midnight(day) + s) == day
  {
  }

  /** AddDays(k): k days later, at the same time of day. */
  lemma DayOfAddDays(t: DateTime, k: nat)
    ensures DayOf(t + k * SecondsPerDay) == DayOf(t) + k
    ensures (t + k * SecondsPerDay) % SecondsPerDay == t % SecondsPerDay
  {
  }

  /** Later instants never have earlier days. */
  lemma DayOfMonotone(s: DateTime, t: DateTime)
    requires s <= t
    ensures DayOf(s) <= DayOf(t)
  {
  }

  /** DateTime.Date: the midnight that starts the instant's day. */
  function DateOf(t: DateTime): (r: DateTime)
    ensures r <= t < r + SecondsPerDay
    ensures DayOf(r) == DayOf(t) && r % SecondsPerDay == 0
  {
    Midnight(DayOf(t))
  }

  /** A midnight lies at or before an instant exactly when its day does. */
  lemma MidnightAtOrBefore(day: nat, t: DateTime)
    ensures Midnight(day) <= t <==> day <= DayOf(t)
  {
    if day <= DayOf(t) {
      assert day * SecondsPerDay <= DayOf(t) * SecondsPerDay;
    } else {
      assert (DayOf(t) + 1) * SecondsPerDay <= day * SecondsPerDay;
    }
  }

  // ---------------------------------------------------------------- weekdays

  /** DayOfWeek: 0 = Sunday, 1 = Monday, ..., 6 = Saturday. */
  function DayOfWeek(day: int): (w: int)
    ensures 0 <= w < 7
  {
    (day + 1) % 7
  }

  predicate IsWeekend(day: int) { DayOfWeek(day) == 0 || DayOfWeek(day) == 6 }

  /** Weekdays repeat every seven days. */
  lemma DayOfWeekPeriodic(day: int, k: int)
    ensures DayOfWeek(day + 7 * k) == DayOfWeek(day)
  {
  }

  // ---------------------------------------------------------------- the civil calendar

  predicate IsLeapYear(y: int) { y % 4 == 0 && (y % 100 != 0 || y % 400 == 0) }

  function DaysInYear(y: int): nat { if IsLeapYear(y) then 366 else 365 }

  /** DateTime.DaysInMonth(y, m). */
  function DaysInMonth(y: int, m: int): (n: nat)
    requires 1 <= m <= 12
    ensures 28 <= n <= 31
    ensures n == 29 <==> m == 2 && IsLeapYear(y)
  {
    if m == 2 then (if IsLeapYear(y) then 29 else 28)
    else if m == 4 || m == 6 || m == 9 || m == 11 then 30
    else 31
  }

  const CumulativeDays: seq<nat> := [0, 31, 59, 90, 120, 151, 181, 212, 243, 273, 304, 334, 365]

  /** Days of year y before the first of month m (m = 13 gives the length of the year). */
  function DaysBeforeMonth(y: int, m: int): nat
    requires 1 <= m <= 13
  {
    CumulativeDays[m - 1] + (if m >= 3 && IsLeapYear(y) then 1 else 0)
  }

  lemma DaysBeforeMonthStep(y: int, m: int)
    requires 1 <= m <= 12
    ensures DaysBeforeMonth(y, m + 1) == DaysBeforeMonth(y, m) + DaysInMonth(y, m)
    ensures DaysBeforeMonth(y, 13) == DaysInYear(y)
  {
  }

  lemma DaysBeforeMonthMonotone(y: int, a: int, b: int)
    requires 1 <= a <= b <= 13
    ensures DaysBeforeMonth(y, a) <= DaysBeforeMonth(y, b)
    ensures a < b ==> DaysBeforeMonth(y, a + 1) <= DaysBeforeMonth(y, b)
  {
  }

  /** Days from 0001-01-01 to the first of January of year y. */
  function DaysBeforeYear(y: int): nat
    requires y >= 1
  {
    var p := y - 1;
    assert p / 100 <= p / 4;
    365 * p + p / 4 - p / 100 + p / 400
  }

  /** Stepping y by one moves y / k up by one exactly when k divides y. */
  lemma DivStep(y: int, k: int)
    requires k == 4 || k == 100 || k == 400
    ensures y / k - (y - 1) / k == if y % k == 0 then 1 else 0
  {
    var q := (y - 1) / k;
    var r := (y - 1) % k;
    assert y - 1 == k * q + r && 0 <= r < k;
    if r == k - 1 {
      assert y == k * (q + 1);
    } else {
      assert y == k * q + (r + 1);
    }
  }

  /** A multiple of 400 is a multiple of 100. */
  lemma MultipleOf400(y: int)
    requires y % 400 == 0
    ensures y % 100 == 0
  {
    var q := y / 400;
    assert y == 100 * (4 * q);
  }

  /** A multiple of 100 is a multiple of 4. */
  lemma MultipleOf100(y: int)
    requires y % 100 == 0
    ensures y % 4 == 0
  {
    var q := y / 100;
    assert y == 4 * (25 * q);
  }

  lemma DaysBeforeYearStep(y: int)
    requires y >= 1
    ensures DaysBeforeYear(y + 1) == DaysBeforeYear(y) + DaysInYear(y)
  {
    var p := y - 1;
    DivStep(y, 4);
    DivStep(y, 100);
    DivStep(y, 400);
    if y % 400 == 0 {
      MultipleOf400(y);
    }
    if y % 100 == 0 {
      MultipleOf100(y);
    }
    assert DaysBeforeYear(y + 1) - DaysBeforeYear(y) == 365 + (y / 4 - p / 4) - (y / 100 - p / 100) + (y / 400 - p / 400);
  }

  lemma {:induction false} DaysBeforeYearMonotone(a: int, b: int)
    requires 1 <= a < b
    ensures DaysBeforeYear(a + 1) <= DaysBeforeYear(b)
    decreases b - a
  {
    DaysBeforeYearStep(a);
    if a + 1 < b {
      DaysBeforeYearMonotone(a + 1, b);
      DaysBeforeYearStep(a + 1);
    }
  }

  /** The year containing day n, searched upwards from year y. */
  function YearFrom(n: nat, y: int): (r: int)
    requires y >= 1 && DaysBeforeYear(y) <= n
    ensures r >= y && DaysBeforeYear(r) <= n < DaysBeforeYear(r + 1)
    decreases n - DaysBeforeYear(y)
  {
    DaysBeforeYearStep(y);
    if n < DaysBeforeYear(y + 1) then y else YearFrom(n, y + 1)
  }

  /** The month of year y containing day-of-year r (0-based), searched upwards from month m. */
  function MonthFrom(y: int, r: int, m: int): (res: int)
    requires 1 <= m <= 12 && DaysBeforeMonth(y, m) <= r < DaysBeforeMonth(y, 13)
    ensures m <= res <= 12 && DaysBeforeMonth(y, res) <= r < DaysBeforeMonth(y, res + 1)
    decreases 12 - m
  {
    if r < DaysBeforeMonth(y, m + 1) then m else MonthFrom(y, r, m + 1)
  }

  datatype Date = Date(year: int, month: int, day: int)

  /** The arguments `new DateTime(year, month, day)` accepts. */
  predicate ValidDate(d: Date)
  {
    1 <= d.year <= MaxYear && 1 <= d.month <= 12 && 1 <= d.day <= DaysInMonth(d.year, d.month)
  }

  /** The day number of a calendar date. */
  function DayNumber(d: Date): nat
    requires ValidDate(d)
  {
    DaysBeforeYear(d.year) + DaysBeforeMonth(d.year, d.month) + d.day - 1
  }

  /** The calendar date of a day number (years past 9999 included). */
  function CivilOfDay(n: nat): (d: Date)
    ensures d.year >= 1 && 1 <= d.month <= 12 && 1 <= d.day <= DaysInMonth(d.year, d.month)
    ensures DaysBeforeYear(d.year) + DaysBeforeMonth(d.year, d.month) + d.day - 1 == n
  {
    var y := YearFrom(n, 1);
    DaysBeforeYearStep(y);
    var m := MonthFrom(y, n - DaysBeforeYear(y), 1);
    DaysBeforeMonthStep(y, m);
    Date(y, m, n - DaysBeforeYear(y) - DaysBeforeMonth(y, m) + 1)
  }

  /** A date's day number lies in its own year. */
  lemma DayNumberInYear(y: int, m: int, day: int)
    requires y >= 1 && 1 <= m <= 12 && 1 <= day <= DaysInMonth(y, m)
    ensures DaysBeforeYear(y) <= DaysBeforeYear(y) + DaysBeforeMonth(y, m) + day - 1 < DaysBeforeYear(y + 1)
  {
    DaysBeforeMonthStep(y, m);
    DaysBeforeMonthMonotone(y, m + 1, 13);
    DaysBeforeYearStep(y);
  }

  /** Two years whose day ranges share a day are the same year. */
  lemma YearsDisjoint(a: int, b: int, n: int)
    requires a >= 1 && b >= 1
    requires DaysBeforeYear(a) <= n < DaysBeforeYear(a + 1) && DaysBeforeYear(b) <= n < DaysBeforeYear(b + 1)
    ensures a == b
  {
    if a < b {
      DaysBeforeYearMonotone(a, b);
    } else if b < a {
      DaysBeforeYearMonotone(b, a);
    }
  }

  /** Two months of a year whose day ranges share a day are the same month. */
  lemma MonthsDisjoint(y: int, a: int, b: int, r: int)
    requires 1 <= a <= 12 && 1 <= b <= 12
    requires DaysBeforeMonth(y, a) <= r < DaysBeforeMonth(y, a + 1) && DaysBeforeMonth(y, b) <= r < DaysBeforeMonth(y, b + 1)
    ensures a == b
  {
    if a < b {
      DaysBeforeMonthMonotone(y, a, b);
    } else if b < a {
      DaysBeforeMonthMonotone(y, b, a);
    }
  }

  /** Converting a valid date to its day number and back gives the date again. */
  lemma CivilOfDayNumber(d: Date)
    requires ValidDate(d)
    ensures CivilOfDay(DayNumber(d)) == d
  {
    var n := DayNumber(d);
    var c := CivilOfDay(n);
    DayNumberInYear(d.year, d.month, d.day);
    DayNumberInYear(c.year, c.month, c.day);
    YearsDisjoint(c.year, d.year, n);
    var r := n - DaysBeforeYear(d.year);
    DaysBeforeMonthStep(d.year, d.month);
    DaysBeforeMonthStep(d.year, c.month);
    MonthsDisjoint(d.year, c.month, d.month, r);
  }

  /** Every day number up to 9999-12-31 is the day number of the valid date it converts to. */
  lemma DayNumberOfCivil(n: nat)
    requires n < DaysBeforeYear(MaxYear + 1)
    ensures ValidDate(CivilOfDay(n)) && DayNumber(CivilOfDay(n)) == n
  {
    var c := CivilOfDay(n);
    if c.year > MaxYear {
      DaysBeforeYearMonotone(MaxYear, c.year);
      DaysBeforeYearStep(MaxYear);
    }
  }

  /** DateTime.Month. */
  function MonthOf(t: DateTime): (m: int)
    ensures 1 <= m <= 12
  {
    CivilOfDay(DayOf(t)).month
  }

  /** DateTime.Year. */
  function YearOf(t: DateTime): (y: int)
    ensures y >= 1
  {
    CivilOfDay(DayOf(t)).year
  }

  // ---------------------------------------------------------------- constructing dates

  /** `new DateTime(year, month, 1)`: ArgumentOutOfRangeException outside years 1..9999 and months 1..12. */
  function FirstOfMonth(year: int, month: int): (r: Result<DateTime>)
    ensures r.Ok? <==> 1 <= year <= MaxYear && 1 <= month <= 12
    ensures r.Err? ==> r.fault == ArgumentOutOfRange
  {
    if 1 <= year <= MaxYear && 1 <= month <= 12 then Ok(Midnight(DayNumber(Date(year, month, 1))))
    else Err(ArgumentOutOfRange)
  }

  /** The first of the month is the midnight that starts the calendar date year-month-01. */
  lemma FirstOfMonthCivil(year: int, month: int)
    requires FirstOfMonth(year, month).Ok?
    ensures var t := FirstOfMonth(year, month).value;
      t % SecondsPerDay == 0 && CivilOfDay(DayOf(t)) == Date(year, month, 1)
  {
    CivilOfDayNumber(Date(year, month, 1));
  }

  /**
   * `first.AddMonths(1).AddDays(-1).Date.AddHours(23).AddMinutes(59).AddSeconds(59)` for
   * `first = new DateTime(year, month, 1)`: 23:59:59 on the month's last day. AddMonths throws
   * past December 9999, as the constructor does outside the calendar.
   */
  function LastSecondOfMonth(year: int, month: int): (r: Result<DateTime>)
    ensures r.Ok? <==> 1 <= year <= MaxYear && 1 <= month <= 12 && !(year == MaxYear && month == 12)
    ensures r.Err? ==> r.fault == ArgumentOutOfRange
  {
    if 1 <= year <= MaxYear && 1 <= month <= 12 && !(year == MaxYear && month == 12) then
      Ok(Midnight(DayNumber(Date(year, month, DaysInMonth(year, month)))) + SecondsPerDay - 1)
    else Err(ArgumentOutOfRange)
  }

  /** The last second of the month is 23:59:59 on the calendar date of the month's last day. */
  lemma LastSecondOfMonthCivil(year: int, month: int)
    requires LastSecondOfMonth(year, month).Ok?
    ensures var t := LastSecondOfMonth(year, month).value;
      t % SecondsPerDay == SecondsPerDay - 1 && CivilOfDay(DayOf(t)) == Date(year, month, DaysInMonth(year, month))
  {
    var last := Date(year, month, DaysInMonth(year, month));
    var n := DayNumber(last);
    var t := Midnight(n) + SecondsPerDay - 1;
    assert LastSecondOfMonth(year, month).value == t;
    LastSecondOfDay(n);
    CivilOfDayNumber(last);
    assert CivilOfDay(DayOf(t)) == CivilOfDay(n);
  }

  /** 23:59:59 on a day belongs to that day and is its last second. */
  lemma LastSecondOfDay(day: nat)
    ensures var t := Midnight(day) + SecondsPerDay - 1;
      DayOf(t) == day && t % SecondsPerDay == SecondsPerDay - 1
  {
    DayOfWithinDay(day, SecondsPerDay - 1);
  }

  /** A month starts at a midnight, ends on the last second of a day, and its start comes first. */
  lemma MonthEnds(year: int, month: int)
    requires LastSecondOfMonth(year, month).Ok?
    ensures var first, last := FirstOfMonth(year, month).value, LastSecondOfMonth(year, month).value;
      first % SecondsPerDay == 0 && last % SecondsPerDay == SecondsPerDay - 1 && first <= last
  {
    var a := DayNumber(Date(year, month, 1));
    var b := DayNumber(Date(year, month, DaysInMonth(year, month)));
    assert a <= b;
    LastSecondOfDay(b);
    assert FirstOfMonth(year, month).value == Midnight(a);
    assert LastSecondOfMonth(year, month).value == Midnight(b) + SecondsPerDay - 1;
  }

  /** The last second of a month is the second before the first of the next month. */
  lemma LastSecondBeforeNextMonth(year: int, month: int)
    requires LastSecondOfMonth(year, month).Ok?
    ensures var next := if month == 12 then FirstOfMonth(year + 1, 1) else FirstOfMonth(year, month + 1);
      next.Ok? && LastSecondOfMonth(year, month).value + 1 == next.value
  {
    DaysBeforeMonthStep(year, month);
    if month == 12 {
      DaysBeforeYearStep(year);
    }
  }

  /** The whole month lies between its first midnight and its last second. */
  lemma MonthBounds(year: int, month: int, t: DateTime)
    requires LastSecondOfMonth(year, month).Ok?
    ensures FirstOfMonth(year, month).value <= t <= LastSecondOfMonth(year, month).value
      <==> YearOf(t) == year && MonthOf(t) == month
  {
    var first := FirstOfMonth(year, month).value;
    var last := LastSecondOfMonth(year, month).value;
    var lo := DayNumber(Date(year, month, 1));
    var hi := DayNumber(Date(year, month, DaysInMonth(year, month)));
    assert DayOf(first) == lo && DayOf(last) == hi;
    MidnightAtOrBefore(lo, t);
    var c := CivilOfDay(DayOf(t));
    if first <= t <= last {
      assert lo <= DayOf(t) <= hi;
      var d := Date(year, month, DayOf(t) - lo + 1);
      assert ValidDate(d) && DayNumber(d) == DayOf(t);
      CivilOfDayNumber(d);
    }
    if YearOf(t) == year && MonthOf(t) == month {
      assert ValidDate(c) && DayNumber(c) == DayOf(t);
      assert lo <= DayOf(t) <= hi;
      assert t < (hi + 1) * SecondsPerDay;
    }
  }

  /** A later month of the calendar starts later. */
  lemma FirstOfMonthIncreasing(y1: int, m1: int, y2: int, m2: int)
    requires FirstOfMonth(y1, m1).Ok? && FirstOfMonth(y2, m2).Ok?
    requires y1 < y2 || (y1 == y2 && m1 < m2)
    ensures FirstOfMonth(y1, m1).value < FirstOfMonth(y2, m2).value
  {
    var a := DayNumber(Date(y1, m1, 1));
    var b := DayNumber(Date(y2, m2, 1));
    assert a < b by {
      DaysBeforeMonthStep(y1, m1);
      if y1 < y2 {
        DaysBeforeMonthMonotone(y1, m1, 13);
        DaysBeforeYearStep(y1);
        if y1 + 1 < y2 {
          DaysBeforeYearMonotone(y1, y2);
        }
      } else {
        DaysBeforeMonthMonotone(y1, m1, m2);
      }
    }
    assert FirstOfMonth(y1, m1).value == Midnight(a) && FirstOfMonth(y2, m2).value == Midnight(b);
  }

  /** A month ends before any later month of the calendar starts. */
  lemma LastSecondBeforeLaterMonth(y1: int, m1: int, y2: int, m2: int)
    requires LastSecondOfMonth(y1, m1).Ok? && FirstOfMonth(y2, m2).Ok?
    requires y1 < y2 || (y1 == y2 && m1 < m2)
    ensures LastSecondOfMonth(y1, m1).value < FirstOfMonth(y2, m2).value
  {
    LastSecondBeforeNextMonth(y1, m1);
    var ny, nm := if m1 == 12 then y1 + 1 else y1, if m1 == 12 then 1 else m1 + 1;
    if (ny, nm) != (y2, m2) {
      FirstOfMonthIncreasing(ny, nm, y2, m2);
    }
  }

  // ---------------------------------------------------------------- month names

  const MonthNames: seq<string> := ["January", "February", "March", "April", "May", "June",
    "July", "August", "September", "October", "November", "December"]

  /** ToString("MMMM") of a date in month m, in an English culture. */
  function MonthName(m: int): string
    requires 1 <= m <= 12
  {
    MonthNames[m - 1]
  }

  /** Equality ignoring the case of ASCII letters. */
  predicate EqualIgnoringCase(a: string, b: string)
  {
    Text.ToLower(a) == Text.ToLower(b)
  }

  function MonthNameFrom(s: string, m: int): (r: Result<int>)
    requires 1 <= m <= 13
    ensures r.Ok? ==> (m <= r.value <= 12 && EqualIgnoringCase(s, MonthName(r.value))
      && forall k :: m <= k < r.value ==> !EqualIgnoringCase(s, MonthName(k)))
    ensures r.Err? ==> (r.fault == FormatError
      && forall k :: m <= k <= 12 ==> !EqualIgnoringCase(s, MonthName(k)))
    decreases 13 - m
  {
    if m == 13 then Err(FormatError)
    else if EqualIgnoringCase(s, MonthName(m)) then Ok(m)
    else MonthNameFrom(s, m + 1)
  }

  /**
   * `DateTime.ParseExact(s, "MMMM", culture).Month` in an English culture: the month whose full
   * name s spells, in any letter case; FormatException for anything else.
   */
  function ParseMonthName(s: string): (r: Result<int>)
    ensures r.Ok? ==> 1 <= r.value <= 12 && EqualIgnoringCase(s, MonthName(r.value))
    ensures r.Err? <==> forall k :: 1 <= k <= 12 ==> !EqualIgnoringCase(s, MonthName(k))
    ensures r.Err? ==> r.fault == FormatError
  {
    MonthNameFrom(s, 1)
  }

  /** Two different months never have names that are equal ignoring case. */
  lemma MonthNamesDistinct(a: int, b: int)
    requires 1 <= a <= 12 && 1 <= b <= 12 && a != b
    ensures !EqualIgnoringCase(MonthName(a), MonthName(b))
  {
    var x, y := MonthName(a), MonthName(b);
    if |x| == |y| {
      var la, lb := Text.ToLower(x), Text.ToLower(y);
      if x[0] == y[0] {
        // June and July share their first two letters only
        assert la[2] == Text.LowerChar(x[2]) && lb[2] == Text.LowerChar(y[2]);
      } else {
        assert la[0] == Text.LowerChar(x[0]) && lb[0] == Text.LowerChar(y[0]);
      }
    } else {
      assert |Text.ToLower(x)| != |Text.ToLower(y)|;
    }
  }

  /** Parsing a month's own name gives the month back. */
  lemma ParseMonthNameOfName(m: int)
    requires 1 <= m <= 12
    ensures ParseMonthName(MonthName(m)) == Ok(m)
  {
    var r := ParseMonthName(MonthName(m));
    if r.Ok? && r.value != m {
      MonthNamesDistinct(m, r.value);
    }
  }
}
