/**
 * The school-day count both day-counting loops compute: a day counts when it lies inside an
 * optional first..last window, is not one of the listed holidays and is neither a Saturday nor a
 * Sunday.
 */
module SchoolDays {
  import opened Wrappers
  import opened Dates

  /** A row of the charter_school_schedule_date table: a holiday of one schedule. */
  datatype CharterSchoolScheduleDate = CharterSchoolScheduleDate(
    CharterSchoolScheduleDateUid: int,
    CharterSchoolScheduleUid: int,
    Date: DateTime,
    DateType: Option<string>)

  /** The days a count admits. `window` is an inclusive range of day numbers, or no bound at all. */
  datatype DayFilter = DayFilter(holidays: set<int>, window: Option<(int, int)>)

  predicate InWindow(f: DayFilter, day: int)
  {
    match f.window
    case None => true
    case Some(w) => w.0 <= day <= w.1
  }

  predicate IsCountedDay(f: DayFilter, day: int)
  {
    InWindow(f, day) && day !in f.holidays && !IsWeekend(day)
  }

  /** The number of counted days in the half-open range [lo, hi) of day numbers. */
  function CountDays(f: DayFilter, lo: int, hi: int): (n: nat)
    ensures n <= if lo < hi then hi - lo else 0
    decreases hi - lo, 1
  {
    if hi <= lo then 0 else CountDaysLast(f, lo, hi)
  }

  /** A non-empty range: the days before its last, then the last day. */
  function CountDaysLast(f: DayFilter, lo: int, hi: int): (n: nat)
    requires lo < hi
    ensures n <= hi - lo
    decreases hi - lo, 0
  {
    CountDays(f, lo, hi - 1) + (if IsCountedDay(f, hi - 1) then 1 else 0)
  }

  lemma CountDaysStep(f: DayFilter, lo: int, hi: int)
    requires lo < hi
    ensures CountDays(f, lo, hi) == CountDays(f, lo, hi - 1) + (if IsCountedDay(f, hi - 1) then 1 else 0)
  {
  }

  /** The counted days themselves. */
  function CountedSet(f: DayFilter, lo: int, hi: int): set<int>
  {
    set d | lo <= d < hi && IsCountedDay(f, d)
  }

  /** CountDays is the number of elements of CountedSet. */
  lemma {:induction false} CountDaysIsCardinality(f: DayFilter, lo: int, hi: int)
    ensures CountDays(f, lo, hi) == |CountedSet(f, lo, hi)|
    decreases hi - lo
  {
    if hi <= lo {
      assert CountedSet(f, lo, hi) == {};
    } else {
      CountDaysIsCardinality(f, lo, hi - 1);
      if IsCountedDay(f, hi - 1) {
        assert CountedSet(f, lo, hi) == CountedSet(f, lo, hi - 1) + {hi - 1};
      } else {
        assert CountedSet(f, lo, hi) == CountedSet(f, lo, hi - 1);
      }
    }
  }

  /** Counting a range in two adjacent pieces gives the count of the whole range. */
  lemma {:induction false} CountDaysSplit(f: DayFilter, lo: int, mid: int, hi: int)
    requires lo <= mid <= hi
    ensures CountDays(f, lo, hi) == CountDays(f, lo, mid) + CountDays(f, mid, hi)
    decreases hi - mid
  {
    if mid < hi {
      CountDaysSplit(f, lo, mid, hi - 1);
    }
  }

  /** A sub-range never counts more than the range around it. */
  lemma CountDaysSubrange(f: DayFilter, lo: int, lo': int, hi': int, hi: int)
    requires lo <= lo' <= hi' <= hi
    ensures CountDays(f, lo', hi') <= CountDays(f, lo, hi)
  {
    CountDaysSplit(f, lo, lo', hi);
    CountDaysSplit(f, lo', hi', hi);
  }

  /** A range has a counted day exactly when its count is positive. */
  lemma {:induction false} CountDaysPositive(f: DayFilter, lo: int, hi: int)
    ensures CountDays(f, lo, hi) > 0 <==> exists d :: lo <= d < hi && IsCountedDay(f, d)
    decreases hi - lo
  {
    if lo < hi {
      CountDaysPositive(f, lo, hi - 1);
      if !IsCountedDay(f, hi - 1) && exists d :: lo <= d < hi && IsCountedDay(f, d) {
        var d :| lo <= d < hi && IsCountedDay(f, d);
        assert lo <= d < hi - 1;
      }
    }
  }

  /** A window only clamps the range: counting [lo, hi) inside first..last counts the intersection. */
  lemma {:induction false} CountDaysClamp(f: DayFilter, lo: int, hi: int)
    requires f.window.Some?
    ensures var first, last := f.window.value.0, f.window.value.1;
      CountDays(f, lo, hi)
        == CountDays(f.(window := None), if lo < first then first else lo, if hi < last + 1 then hi else last + 1)
    decreases hi - lo
  {
    var first, last := f.window.value.0, f.window.value.1;
    var g := f.(window := None);
    if lo < hi {
      CountDaysClamp(f, lo, hi - 1);
      if first <= hi - 1 <= last {
        assert IsCountedDay(f, hi - 1) == IsCountedDay(g, hi - 1);
      }
    }
  }

  /** A range entirely outside the window counts nothing. */
  lemma CountDaysOutsideWindow(f: DayFilter, lo: int, hi: int)
    requires f.window.Some? && (hi <= f.window.value.0 || f.window.value.1 < lo)
    ensures CountDays(f, lo, hi) == 0
  {
    CountDaysClamp(f, lo, hi);
  }

  /** Seven consecutive days inside the window with no holiday among them count exactly five. */
  lemma CountDaysWeek(f: DayFilter, lo: int)
    requires forall d :: lo <= d < lo + 7 ==> InWindow(f, d) && d !in f.holidays
    ensures CountDays(f, lo, lo + 7) == 5
  {
    var k := 0;
    while k < 7
      invariant 0 <= k <= 7
      invariant CountDays(f, lo, lo + k) == WeekdaysFrom(DayOfWeek(lo), k)
    {
      CountDaysStep(f, lo, lo + k + 1);
      DayOfWeekAfter(lo, k);
      k := k + 1;
    }
    WeekHasFiveWeekdays(DayOfWeek(lo));
  }

  /** Whatever day a week starts on, five of its seven days are weekdays. */
  lemma WeekHasFiveWeekdays(w: int)
    requires 0 <= w < 7
    ensures WeekdaysFrom(w, 7) == 5
  {
    assert WeekdaysFrom(w, 1) == if w == 0 || w == 6 then 0 else 1;
    assert WeekdaysFrom(w, 2) == WeekdaysFrom(w, 1) + if w == 5 || w == 6 then 0 else 1;
    assert WeekdaysFrom(w, 3) == WeekdaysFrom(w, 2) + if w == 4 || w == 5 then 0 else 1;
    assert WeekdaysFrom(w, 4) == WeekdaysFrom(w, 3) + if w == 3 || w == 4 then 0 else 1;
    assert WeekdaysFrom(w, 5) == WeekdaysFrom(w, 4) + if w == 2 || w == 3 then 0 else 1;
    assert WeekdaysFrom(w, 6) == WeekdaysFrom(w, 5) + if w == 1 || w == 2 then 0 else 1;
    assert WeekdaysFrom(w, 7) == WeekdaysFrom(w, 6) + if w == 0 || w == 1 then 0 else 1;
  }

  /** The number of weekdays among the k days starting on weekday w. */
  function WeekdaysFrom(w: int, k: nat): nat
  {
    if k == 0 then 0 else WeekdaysFrom(w, k - 1) + (if (w + k - 1) % 7 == 0 || (w + k - 1) % 7 == 6 then 0 else 1)
  }

  /** The weekday k days after a day is k steps round the week from its own. */
  lemma DayOfWeekAfter(day: int, k: int)
    ensures DayOfWeek(day + k) == (DayOfWeek(day) + k) % 7
  {
  }

  /** More holidays never give more days. */
  lemma {:induction false} CountDaysHolidaysAntitone(f: DayFilter, g: DayFilter, lo: int, hi: int)
    requires f.window == g.window && f.holidays <= g.holidays
    ensures CountDays(g, lo, hi) <= CountDays(f, lo, hi)
    decreases hi - lo
  {
    if lo < hi {
      CountDaysHolidaysAntitone(f, g, lo, hi - 1);
    }
  }

  // ---------------------------------------------------------------- holiday lists

  /**
   * The days the schedule loop treats as holidays: the days of the rows that belong to this
   * schedule, whatever their time of day.
   */
  function ScheduleHolidays(dates: seq<CharterSchoolScheduleDate>, scheduleUid: int): set<int>
  {
    set i | 0 <= i < |dates| && dates[i].CharterSchoolScheduleUid == scheduleUid :: DayOf(dates[i].Date)
  }

  /** A day is a schedule holiday exactly when some row of that schedule falls on it. */
  lemma ScheduleHolidaysMembers(dates: seq<CharterSchoolScheduleDate>, scheduleUid: int, day: int)
    ensures day in ScheduleHolidays(dates, scheduleUid) <==>
      exists i :: 0 <= i < |dates| && dates[i].CharterSchoolScheduleUid == scheduleUid && DayOf(dates[i].Date) == day
  {
  }

  /**
   * The days the student loop treats as holidays: the stored instant is compared with the day's
   * midnight, so a row stored with a time of day never matches.
   */
  function StudentHolidays(dates: seq<CharterSchoolScheduleDate>): set<int>
  {
    set i | 0 <= i < |dates| && dates[i].Date % SecondsPerDay == 0 :: DayOf(dates[i].Date)
  }

  /** A day is a student holiday exactly when some row is stored at that day's midnight. */
  lemma StudentHolidaysMembers(dates: seq<CharterSchoolScheduleDate>, day: nat)
    ensures day in StudentHolidays(dates) <==> exists i :: 0 <= i < |dates| && dates[i].Date == Midnight(day)
  {
  }
}
