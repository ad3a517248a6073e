/**
 * A charter school's schedule: the grade band it covers, the first and last day of its school
 * year, and the school-day count with its two memo caches (one for the full year, one per month
 * name).
 */
module Schedules {
  import opened Wrappers
  import opened Text
  import opened Dates
  import opened SchoolDays
  import opened Entities

  /** The inputs one school-day count was computed from. */
  datatype Query = Query(holidays: set<int>, from: DateTime, to: DateTime, firstDay: DateTime, lastDay: DateTime)

  /** Days between the schedule's first and last day (by date), minus its holidays and weekends. */
  function ScheduleFilter(holidays: set<int>, firstDay: DateTime, lastDay: DateTime): DayFilter
  {
    DayFilter(holidays, Some((DayOf(firstDay), DayOf(lastDay))))
  }

  /** The count the loop computes: the dates from `from`'s date up to and including `to`. */
  function QueryCount(q: Query): nat
  {
    CountDays(ScheduleFilter(q.holidays, q.firstDay, q.lastDay), DayOf(q.from), DayOf(q.to) + 1)
  }

  /** The month cache's key for a count starting at `from`: its English month name only. */
  function MonthKey(from: DateTime): string
  {
    MonthName(MonthOf(from))
  }

  /** Only the dates in both from..to and FirstDay..LastDay can be counted. */
  lemma QueryCountClamped(q: Query)
    ensures var lo, hi := DayOf(q.from), DayOf(q.to) + 1;
      var first, last := DayOf(q.firstDay), DayOf(q.lastDay) + 1;
      QueryCount(q) == CountDays(DayFilter(q.holidays, None), if lo < first then first else lo, if hi < last then hi else last)
  {
    CountDaysClamp(ScheduleFilter(q.holidays, q.firstDay, q.lastDay), DayOf(q.from), DayOf(q.to) + 1);
  }

  /** A range that ends before the first day, starts after the last day, or is empty counts 0. */
  lemma QueryCountDisjoint(q: Query)
    requires DayOf(q.to) < DayOf(q.firstDay) || DayOf(q.lastDay) < DayOf(q.from) || DayOf(q.to) < DayOf(q.from)
    ensures QueryCount(q) == 0
  {
    if DayOf(q.to) >= DayOf(q.from) {
      CountDaysOutsideWindow(ScheduleFilter(q.holidays, q.firstDay, q.lastDay), DayOf(q.from), DayOf(q.to) + 1);
    }
  }

  class CharterSchoolSchedule {
    var CharterSchoolScheduleUid: int
    var CharterSchoolUid: int
    var StartGrade: Option<string>
    var EndGrade: Option<string>
    var FirstDay: DateTime
    var LastDay: DateTime
    var totalDaysInYear: int
    var totalDaysInMonth: map<string, int>
    /** The query whose count totalDaysInYear holds. */
    ghost var yearQuery: Query
    /** For each month key, the query whose count totalDaysInMonth holds. */
    ghost var monthQueries: map<string, Query>

    /** Every cached value is the count of the query it was stored from. */
    ghost predicate Valid()
      reads this
    {
      totalDaysInYear >= 0
      && (totalDaysInYear > 0 ==> totalDaysInYear == QueryCount(yearQuery))
      && monthQueries.Keys == totalDaysInMonth.Keys
      && (forall k :: k in totalDaysInMonth ==> totalDaysInMonth[k] == QueryCount(monthQueries[k]))
    }

    /** The parameterless constructor; `today` stands for DateTime.Today. */
    constructor (today: DateTime)
      ensures Valid()
      ensures FirstDay == DateOf(today) && LastDay == DateOf(today)
      ensures CharterSchoolScheduleUid == 0 && CharterSchoolUid == 0
      ensures StartGrade == None && EndGrade == None
      ensures totalDaysInYear == 0 && totalDaysInMonth == map[]
    {
      CharterSchoolScheduleUid := 0;
      CharterSchoolUid := 0;
      StartGrade := None;
      EndGrade := None;
      FirstDay := DateOf(today);
      LastDay := DateOf(today);
      totalDaysInYear := 0;
      totalDaysInMonth := map[];
      yearQuery := Query({}, 0, 0, 0, 0);
      monthQueries := map[];
    }

    /** The constructor for a school: grades K..12 of that school. */
    constructor ForSchool(school: CharterSchool, today: DateTime)
      ensures Valid()
      ensures FirstDay == DateOf(today) && LastDay == DateOf(today)
      ensures CharterSchoolScheduleUid == 0 && CharterSchoolUid == school.CharterSchoolUid
      ensures StartGrade == Some("K") && EndGrade == Some("12")
      ensures totalDaysInYear == 0 && totalDaysInMonth == map[]
    {
      CharterSchoolScheduleUid := 0;
      CharterSchoolUid := school.CharterSchoolUid;
      StartGrade := Some("K");
      EndGrade := Some("12");
      FirstDay := DateOf(today);
      LastDay := DateOf(today);
      totalDaysInYear := 0;
      totalDaysInMonth := map[];
      yearQuery := Query({}, 0, 0, 0, 0);
      monthQueries := map[];
    }

    /** Whether the grade lies in StartGrade..EndGrade, each read with int.TryParse (0 when it fails). */
    function AppliesToGrade(grade: Option<string>): (b: bool)
      reads this
      ensures grade.None? ==> (b <==> TryParseInt32(StartGrade) <= 0 <= TryParseInt32(EndGrade))
      ensures b ==> TryParseInt32(StartGrade) <= TryParseInt32(EndGrade)
    {
      TryParseInt32(StartGrade) <= TryParseInt32(grade) <= TryParseInt32(EndGrade)
    }

    /**
     * The loop of GetSchoolDays: walks the dates from from's date while they are not after to,
     * skipping dates outside FirstDay..LastDay, holidays and weekends.
     */
    method CountScheduleDays(holidays: set<int>, from: DateTime, to: DateTime) returns (totalDays: nat)
      ensures totalDays == QueryCount(Query(holidays, from, to, FirstDay, LastDay))
    {
      var f := ScheduleFilter(holidays, FirstDay, LastDay);
      totalDays := 0;
      var date := DateOf(from);
      while date <= to
        invariant date % SecondsPerDay == 0 && DayOf(from) <= DayOf(date)
        invariant DayOf(date) == DayOf(from) || DayOf(date) <= DayOf(to) + 1
        invariant totalDays == CountDays(f, DayOf(from), DayOf(date))
        decreases (to + SecondsPerDay) - date
      {
        var day := DayOf(date);
        if day < DayOf(FirstDay) || day > DayOf(LastDay) {
          // outside the school year
        } else if day in holidays {
          // a holiday of this schedule
        } else if !IsWeekend(day) {
          totalDays := totalDays + 1;
        }
        DayOfMonotone(date, to);
        DayOfAddDays(date, 1);
        date := date + SecondsPerDay;
      }
      MidnightAtOrBefore(DayOf(date), to);
    }

    /**
     * The school days from from's date through to, inside FirstDay..LastDay, that are neither a
     * holiday of this schedule nor a weekend. A full-year call returns the stored year count when
     * it is positive; a full-month call returns the count stored under from's month name. A
     * computed count is stored for the year, and added for the month, when the flags ask for it.
     */
    method GetSchoolDays(scheduleDates: seq<CharterSchoolScheduleDate>, from: DateTime, to: DateTime,
                         isFullMonth: bool, isFullYear: bool) returns (totalDays: int)
      requires Valid()
      modifies this
      ensures Valid()
      ensures CharterSchoolScheduleUid == old(CharterSchoolScheduleUid) && CharterSchoolUid == old(CharterSchoolUid)
      ensures StartGrade == old(StartGrade) && EndGrade == old(EndGrade)
      ensures FirstDay == old(FirstDay) && LastDay == old(LastDay)
      ensures forall k :: k in old(totalDaysInMonth) ==> k in totalDaysInMonth && totalDaysInMonth[k] == old(totalDaysInMonth)[k]
      ensures var key := MonthKey(from);
        var q := Query(ScheduleHolidays(scheduleDates, CharterSchoolScheduleUid), from, to, FirstDay, LastDay);
        if isFullYear && old(totalDaysInYear) > 0 then
          totalDays == old(totalDaysInYear)
          && totalDaysInYear == old(totalDaysInYear) && totalDaysInMonth == old(totalDaysInMonth)
        else if isFullMonth && key in old(totalDaysInMonth) then
          totalDays == old(totalDaysInMonth)[key]
          && totalDaysInYear == old(totalDaysInYear) && totalDaysInMonth == old(totalDaysInMonth)
        else
          totalDays == QueryCount(q)
          && totalDaysInYear == (if isFullYear then totalDays else old(totalDaysInYear))
          && totalDaysInMonth == (if isFullMonth then old(totalDaysInMonth)[key := totalDays] else old(totalDaysInMonth))
    {
      var key := MonthKey(from);
      if isFullYear && totalDaysInYear > 0 {
        totalDays := totalDaysInYear;
      } else if isFullMonth && key in totalDaysInMonth {
        totalDays := totalDaysInMonth[key];
      } else {
        var holidays := ScheduleHolidays(scheduleDates, CharterSchoolScheduleUid);
        totalDays := CountAndStore(holidays, from, to, key, isFullMonth, isFullYear);
      }
    }

    /** The computing branch of GetSchoolDays: count, then store the count under the flags. */
    method CountAndStore(holidays: set<int>, from: DateTime, to: DateTime, key: string, isFullMonth: bool,
                         isFullYear: bool) returns (totalDays: int)
      requires Valid()
      modifies this
      ensures Valid()
      ensures CharterSchoolScheduleUid == old(CharterSchoolScheduleUid) && CharterSchoolUid == old(CharterSchoolUid)
      ensures StartGrade == old(StartGrade) && EndGrade == old(EndGrade)
      ensures FirstDay == old(FirstDay) && LastDay == old(LastDay)
      ensures totalDays == QueryCount(Query(holidays, from, to, FirstDay, LastDay))
      ensures totalDaysInYear == (if isFullYear then totalDays else old(totalDaysInYear))
      ensures totalDaysInMonth == (if isFullMonth then old(totalDaysInMonth)[key := totalDays] else old(totalDaysInMonth))
    {
      totalDays := CountScheduleDays(holidays, from, to);
      ghost var q := Query(holidays, from, to, FirstDay, LastDay);
      if isFullYear {
        totalDaysInYear := totalDays;
        yearQuery := q;
      }
      if isFullMonth {
        totalDaysInMonth := totalDaysInMonth[key := totalDays];
        monthQueries := monthQueries[key := q];
      }
    }
  }

  // ---------------------------------------------------------------- the caches, seen from a caller

  /** Two consecutive identical calls return the same count, whether or not a cache answered. */
  method RepeatedCallAgrees(s: CharterSchoolSchedule, scheduleDates: seq<CharterSchoolScheduleDate>,
                            from: DateTime, to: DateTime, isFullMonth: bool, isFullYear: bool)
    returns (first: int, second: int)
    requires s.Valid()
    modifies s
    ensures s.Valid()
    ensures first == second
  {
    first := s.GetSchoolDays(scheduleDates, from, to, isFullMonth, isFullYear);
    second := s.GetSchoolDays(scheduleDates, from, to, isFullMonth, isFullYear);
  }

  /**
   * Once a full-year call has produced a positive count, a later full-year call returns that
   * count whatever its own range and holidays are.
   */
  method LaterFullYearCallReusesCount(s: CharterSchoolSchedule,
                                      dates1: seq<CharterSchoolScheduleDate>, from1: DateTime, to1: DateTime,
                                      dates2: seq<CharterSchoolScheduleDate>, from2: DateTime, to2: DateTime,
                                      isFullMonth2: bool)
    returns (first: int, second: int)
    requires s.Valid()
    modifies s
    ensures s.Valid()
    ensures first > 0 ==> second == first
  {
    first := s.GetSchoolDays(dates1, from1, to1, false, true);
    second := s.GetSchoolDays(dates2, from2, to2, isFullMonth2, true);
  }

  /**
   * A full-month call in a month with the same name as an earlier full-month call returns the
   * earlier count, whatever the year, the end of the range or the holidays.
   */
  method SameMonthNameReusesCount(s: CharterSchoolSchedule,
                                  dates1: seq<CharterSchoolScheduleDate>, from1: DateTime, to1: DateTime,
                                  dates2: seq<CharterSchoolScheduleDate>, from2: DateTime, to2: DateTime)
    returns (first: int, second: int)
    requires s.Valid()
    requires MonthOf(from1) == MonthOf(from2)
    modifies s
    ensures s.Valid()
    ensures second == first
  {
    first := s.GetSchoolDays(dates1, from1, to1, true, false);
    second := s.GetSchoolDays(dates2, from2, to2, true, false);
  }

  // ---------------------------------------------------------------- grade bands

  /** A numeric band applies to exactly the numeric grades between its ends. */
  lemma AppliesToGradeNumeric(s: CharterSchoolSchedule, lo: int, hi: int, g: int)
    requires IsInt32(lo) && IsInt32(hi) && IsInt32(g)
    requires s.StartGrade == Some(Int32ToString(lo)) && s.EndGrade == Some(Int32ToString(hi))
    ensures s.AppliesToGrade(Some(Int32ToString(g))) <==> lo <= g <= hi
  {
    ParseInt32OfToString(lo);
    ParseInt32OfToString(hi);
    ParseInt32OfToString(g);
  }

  /** A grade that does not parse (a letter grade, or no grade) is grade 0. */
  lemma AppliesToGradeUnparsed(s: CharterSchoolSchedule, grade: Option<string>)
    requires grade.None? || ParseInt32(grade.value).Err?
    ensures s.AppliesToGrade(grade) <==> TryParseInt32(s.StartGrade) <= 0 <= TryParseInt32(s.EndGrade)
  {
  }

  /** "K" does not parse, so it is grade 0. */
  lemma KindergartenIsGradeZero()
    ensures ParseInt32("K").Err? && TryParseInt32(Some("K")) == 0
  {
    assert TrimStartWhite("K") == "K";
    assert TrimEndWhite("K") == "K";
    assert !IsDigit("K"[0]);
  }

  /** Band K..12 contains "K". */
  lemma KindergartenToTwelve(s: CharterSchoolSchedule)
    requires s.StartGrade == Some("K") && s.EndGrade == Some("12")
    ensures s.AppliesToGrade(Some("K"))
  {
    KindergartenIsGradeZero();
    ParseInt32OfToString(12);
    assert Int32ToString(12) == "12";
  }

  /** Band K..5 contains "5" and not "6". */
  lemma KindergartenToFive(s: CharterSchoolSchedule)
    requires s.StartGrade == Some("K") && s.EndGrade == Some("5")
    ensures s.AppliesToGrade(Some("5")) && !s.AppliesToGrade(Some("6"))
  {
    KindergartenIsGradeZero();
    ParseInt32OfToString(5);
    ParseInt32OfToString(6);
    assert Int32ToString(5) == "5" && Int32ToString(6) == "6";
  }

  /** A band starting at "K" contains every grade that does not parse, as long as its end is not negative. */
  lemma KindergartenBandUnparsed(s: CharterSchoolSchedule, grade: Option<string>)
    requires s.StartGrade == Some("K")
    requires grade.None? || ParseInt32(grade.value).Err?
    requires TryParseInt32(s.EndGrade) >= 0
    ensures s.AppliesToGrade(grade)
  {
    KindergartenIsGradeZero();
  }
}
