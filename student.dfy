/**
 * A student record: its fields, the in-place copy the import uses, the half-open school-day
 * count, and the monthly proration of a student's enrolment.
 */
module Students {
  import opened Wrappers
  import opened Dates
  import opened SchoolDays

  /** A snapshot of every field of a Student. */
  datatype StudentData = StudentData(
    StudentUid: int,
    StateStudentNo: Option<string>,
    FirstName: Option<string>,
    LastName: Option<string>,
    AddressStreet: Option<string>,
    AddressCity: Option<string>,
    AddressState: Option<string>,
    AddressZip: Option<string>,
    Dob: Option<DateTime>,
    Grade: Option<string>,
    DistrictEntryDate: Option<DateTime>,
    ExitDate: Option<DateTime>,
    SpedFlag: Option<string>,
    IepFlag: Option<string>,
    CurrentIepDate: Option<DateTime>,
    PriorIepDate: Option<DateTime>,
    CharterSchoolUid: int,
    Aun: Option<string>)

  /** The record `target` becomes when the fifteen copied fields are taken from `source`. */
  function CopiedFrom(target: StudentData, source: StudentData): StudentData
  {
    StudentData(
      target.StudentUid, target.StateStudentNo,
      source.FirstName, source.LastName, source.AddressStreet, source.AddressCity,
      source.AddressState, source.AddressZip, source.Dob, source.Grade,
      source.DistrictEntryDate, source.ExitDate, target.SpedFlag, source.IepFlag,
      source.CurrentIepDate, source.PriorIepDate, source.CharterSchoolUid, source.Aun)
  }

  /**
   * Copying makes the target equal to the source in everything but StudentUid, StateStudentNo and
   * SpedFlag, which keep the target's values; copying again changes nothing.
   */
  lemma CopiedFromKeepsThreeFields(target: StudentData, source: StudentData)
    ensures CopiedFrom(target, source)
      == source.(StudentUid := target.StudentUid, StateStudentNo := target.StateStudentNo, SpedFlag := target.SpedFlag)
    ensures CopiedFrom(CopiedFrom(target, source), source) == CopiedFrom(target, source)
    ensures CopiedFrom(target, source) == target
      <==> target == source.(StudentUid := target.StudentUid, StateStudentNo := target.StateStudentNo, SpedFlag := target.SpedFlag)
  {
  }

  // ---------------------------------------------------------------- the half-open school-day count

  /** How many times `date = date.AddDays(1)` runs from `from` while `date < to`. */
  function Steps(from: DateTime, to: DateTime): nat
  {
    if to <= from then 0 else (to - from + SecondsPerDay - 1) / SecondsPerDay
  }

  /** The filter of the student count: listed holidays (at midnight) and weekends, no window. */
  function StudentFilter(holidays: seq<CharterSchoolScheduleDate>): DayFilter
  {
    DayFilter(StudentHolidays(holidays), None)
  }

  /** The school days the student loop counts: one per step from `from`, while before `to`. */
  function SchoolDaysBetween(holidays: seq<CharterSchoolScheduleDate>, from: DateTime, to: DateTime): nat
  {
    CountDays(StudentFilter(holidays), DayOf(from), DayOf(from) + Steps(from, to))
  }

  lemma StepsExact(from: DateTime, to: DateTime, k: nat)
    requires to - from <= k * SecondsPerDay
    requires k == 0 || (k - 1) * SecondsPerDay < to - from
    ensures k == Steps(from, to)
  {
  }

  /** The visited days never go past to's day. */
  lemma StepsBound(from: DateTime, to: DateTime)
    ensures DayOf(from) + Steps(from, to) <= if to <= from then DayOf(from) else DayOf(to) + 1
  {
    if from < to {
      var k := Steps(from, to);
      assert from + (k - 1) * SecondsPerDay < to;
      DayOfAddDays(from, k - 1);
      DayOfMonotone(from + (k - 1) * SecondsPerDay, to);
    }
  }

  /**
   * Counting from a midnight: the days from from's day up to to's day, with to's day itself
   * counted only when to is past its midnight. So a count up to 23:59:59 includes the last
   * day, and a count up to a midnight excludes that day.
   */
  lemma SchoolDaysFromMidnight(holidays: seq<CharterSchoolScheduleDate>, from: DateTime, to: DateTime)
    requires from % SecondsPerDay == 0 && from <= to
    ensures SchoolDaysBetween(holidays, from, to)
      == CountDays(StudentFilter(holidays), DayOf(from), DayOf(to) + (if to % SecondsPerDay == 0 then 0 else 1))
  {
    var a, b := DayOf(from), DayOf(to);
    assert from == a * SecondsPerDay;
    assert to == b * SecondsPerDay + to % SecondsPerDay;
    StepsExact(from, to, b - a + (if to % SecondsPerDay == 0 then 0 else 1));
  }

  // ---------------------------------------------------------------- the student

  class Student {
    var StudentUid: int
    var StateStudentNo: Option<string>
    var FirstName: Option<string>
    var LastName: Option<string>
    var AddressStreet: Option<string>
    var AddressCity: Option<string>
    var AddressState: Option<string>
    var AddressZip: Option<string>
    var Dob: Option<DateTime>
    var Grade: Option<string>
    var DistrictEntryDate: Option<DateTime>
    var ExitDate: Option<DateTime>
    var SpedFlag: Option<string>
    var IepFlag: Option<string>
    var CurrentIepDate: Option<DateTime>
    var PriorIepDate: Option<DateTime>
    var CharterSchoolUid: int
    var Aun: Option<string>

    /** All fields, as a value. */
    function Data(): StudentData
      reads this
    {
      StudentData(StudentUid, StateStudentNo, FirstName, LastName, AddressStreet, AddressCity,
        AddressState, AddressZip, Dob, Grade, DistrictEntryDate, ExitDate, SpedFlag, IepFlag,
        CurrentIepDate, PriorIepDate, CharterSchoolUid, Aun)
    }

    /** A student holding the given field values. */
    constructor FromData(d: StudentData)
      ensures Data() == d
    {
      StudentUid, StateStudentNo, FirstName, LastName := d.StudentUid, d.StateStudentNo, d.FirstName, d.LastName;
      AddressStreet, AddressCity, AddressState, AddressZip := d.AddressStreet, d.AddressCity, d.AddressState, d.AddressZip;
      Dob, Grade, DistrictEntryDate, ExitDate := d.Dob, d.Grade, d.DistrictEntryDate, d.ExitDate;
      SpedFlag, IepFlag, CurrentIepDate, PriorIepDate := d.SpedFlag, d.IepFlag, d.CurrentIepDate, d.PriorIepDate;
      CharterSchoolUid, Aun := d.CharterSchoolUid, d.Aun;
    }

    /** Overwrites the fifteen copied fields with those of `student`; nothing else changes. */
    method CopyPropertiesFrom(student: Student)
      modifies this
      ensures Data() == CopiedFrom(old(Data()), old(student.Data()))
    {
      // Every copied field is read before any is written, so the result is the same even when
      // `student` is this very object.
      var d := student.Data();
      SetData(CopiedFrom(Data(), d));
    }

    /** Stores every field of `d`. */
    method SetData(d: StudentData)
      modifies this
      ensures Data() == d
    {
      SetNames(d);
      SetAddress(d);
      SetEnrolment(d);
    }

    /** Stores the identifying fields, the charter school and the AUN of `d`. */
    method SetNames(d: StudentData)
      modifies this
      ensures Data() == old(Data()).(StudentUid := d.StudentUid, StateStudentNo := d.StateStudentNo,
        FirstName := d.FirstName, LastName := d.LastName, CharterSchoolUid := d.CharterSchoolUid, Aun := d.Aun)
    {
      StudentUid, StateStudentNo, FirstName, LastName := d.StudentUid, d.StateStudentNo, d.FirstName, d.LastName;
      CharterSchoolUid, Aun := d.CharterSchoolUid, d.Aun;
    }

    /** Stores the address, birth date and grade of `d`. */
    method SetAddress(d: StudentData)
      modifies this
      ensures Data() == old(Data()).(AddressStreet := d.AddressStreet, AddressCity := d.AddressCity,
        AddressState := d.AddressState, AddressZip := d.AddressZip, Dob := d.Dob, Grade := d.Grade)
    {
      AddressStreet, AddressCity, AddressState, AddressZip := d.AddressStreet, d.AddressCity, d.AddressState, d.AddressZip;
      Dob, Grade := d.Dob, d.Grade;
    }

    /** Stores the enrolment and special-education fields of `d`. */
    method SetEnrolment(d: StudentData)
      modifies this
      ensures Data() == old(Data()).(DistrictEntryDate := d.DistrictEntryDate, ExitDate := d.ExitDate,
        SpedFlag := d.SpedFlag, IepFlag := d.IepFlag, CurrentIepDate := d.CurrentIepDate, PriorIepDate := d.PriorIepDate)
    {
      DistrictEntryDate, ExitDate, SpedFlag, IepFlag := d.DistrictEntryDate, d.ExitDate, d.SpedFlag, d.IepFlag;
      CurrentIepDate, PriorIepDate := d.CurrentIepDate, d.PriorIepDate;
    }

    /**
     * Counts the dates from `from`, a day at a time, while before `to`, that are neither a listed
     * holiday (matched at midnight) nor a Saturday or Sunday. There is no school-year window.
     */
    method GetSchoolDays(from: DateTime, to: DateTime, holidays: seq<CharterSchoolScheduleDate>)
      returns (totalDays: nat)
      ensures totalDays == SchoolDaysBetween(holidays, from, to)
    {
      var f := StudentFilter(holidays);
      totalDays := 0;
      var date := from;
      ghost var k: nat := 0;
      while date < to
        invariant date == from + k * SecondsPerDay
        invariant k == 0 || (k - 1) * SecondsPerDay < to - from
        invariant totalDays == CountDays(f, DayOf(from), DayOf(from) + k)
        decreases (to as int) - date
      {
        DayOfAddDays(from, k);
        var day := DayOf(date);
        if day in f.holidays {
          // a holiday
        } else if !IsWeekend(day) {
          totalDays := totalDays + 1;
        }
        date := date + SecondsPerDay;
        k := k + 1;
      }
      StepsExact(from, to, k);
    }

    /**
     * The student's share of the month: 1 when enrolled from the first through 23:59:59 of the
     * last day; otherwise an integer quotient of school-day counts, from the entry date when it
     * is on or after the first, else up to the exit date. Errors: a month the calendar lacks, a
     * missing exit date on the exit path, a month with no school days.
     */
    function GetMonthlyAttendanceValue(month: int, year: int, holidays: seq<CharterSchoolScheduleDate>): (r: Result<int>)
      reads this
      ensures r.Err? ==> r.fault == ArgumentOutOfRange || r.fault == InvalidOperation || r.fault == DivideByZero
    {
      var firstOfMonth := FirstOfMonth(year, month);
      var lastOfMonth := LastSecondOfMonth(year, month);
      if lastOfMonth.Err? then Err(lastOfMonth.fault)
      else
        var first, last := firstOfMonth.value, lastOfMonth.value;
        if DistrictEntryDate.Some? && DistrictEntryDate.value <= first && (ExitDate.None? || ExitDate.value >= last) then
          Ok(1)
        else
          var daysInMonth := SchoolDaysBetween(holidays, first, last);
          if DistrictEntryDate.Some? && DistrictEntryDate.value >= first then
            var attended := SchoolDaysBetween(holidays, DistrictEntryDate.value, last);
            if daysInMonth == 0 then Err(DivideByZero) else Ok(attended / daysInMonth)
          else if ExitDate.None? then
            Err(InvalidOperation)
          else
            var attended := SchoolDaysBetween(holidays, first, ExitDate.value);
            if daysInMonth == 0 then Err(DivideByZero) else Ok(attended / daysInMonth)
    }
  }

  // ---------------------------------------------------------------- properties of the proration

  /** The month's school days: from its first midnight through its last second. */
  function MonthSchoolDays(holidays: seq<CharterSchoolScheduleDate>, year: int, month: int): nat
    requires LastSecondOfMonth(year, month).Ok?
  {
    SchoolDaysBetween(holidays, FirstOfMonth(year, month).value, LastSecondOfMonth(year, month).value)
  }

  /** The month's school days are its calendar days that are neither listed holidays nor weekends. */
  lemma MonthSchoolDaysRange(holidays: seq<CharterSchoolScheduleDate>, year: int, month: int)
    requires LastSecondOfMonth(year, month).Ok?
    ensures var first := DayOf(FirstOfMonth(year, month).value);
      MonthSchoolDays(holidays, year, month)
        == CountDays(StudentFilter(holidays), first, first + DaysInMonth(year, month))
  {
    var first, last := FirstOfMonth(year, month).value, LastSecondOfMonth(year, month).value;
    SchoolDaysFromMidnight(holidays, first, last);
    var lastDay := DayNumber(Date(year, month, DaysInMonth(year, month)));
    DayOfWithinDay(lastDay, SecondsPerDay - 1);
    assert DayOf(last) == lastDay == DayOf(first) + DaysInMonth(year, month) - 1;
  }

  /** A month the calendar cannot build (or December 9999) is an ArgumentOutOfRange error. */
  lemma AttendanceBadMonth(s: Student, month: int, year: int, holidays: seq<CharterSchoolScheduleDate>)
    requires LastSecondOfMonth(year, month).Err?
    ensures s.GetMonthlyAttendanceValue(month, year, holidays) == Err(ArgumentOutOfRange)
  {
  }

  /** Enrolled on or before the first and not exited before 23:59:59 of the last day: exactly 1. */
  lemma AttendanceFullMonth(s: Student, month: int, year: int, holidays: seq<CharterSchoolScheduleDate>)
    requires LastSecondOfMonth(year, month).Ok?
    requires s.DistrictEntryDate.Some? && s.DistrictEntryDate.value <= FirstOfMonth(year, month).value
    requires s.ExitDate.None? || s.ExitDate.value >= LastSecondOfMonth(year, month).value
    ensures s.GetMonthlyAttendanceValue(month, year, holidays) == Ok(1)
  {
  }

  /**
   * Entering on the first of the month takes the entry path, so an exit during the month is
   * ignored and the value is still 1 (when the month has school days).
   */
  lemma AttendanceEntryOnFirstIgnoresExit(s: Student, month: int, year: int, holidays: seq<CharterSchoolScheduleDate>)
    requires LastSecondOfMonth(year, month).Ok?
    requires s.DistrictEntryDate == Some(FirstOfMonth(year, month).value)
    requires MonthSchoolDays(holidays, year, month) > 0
    ensures s.GetMonthlyAttendanceValue(month, year, holidays) == Ok(1)
  {
  }

  /**
   * Entered before the month and exited during it: the school days from the first up to, but
   * not including, the exit day, divided by the month's school days.
   */
  lemma AttendanceExitBranch(s: Student, month: int, year: int, holidays: seq<CharterSchoolScheduleDate>)
    requires LastSecondOfMonth(year, month).Ok?
    requires s.DistrictEntryDate.Some? && s.DistrictEntryDate.value < FirstOfMonth(year, month).value
    requires s.ExitDate.Some? && s.ExitDate.value % SecondsPerDay == 0
    requires FirstOfMonth(year, month).value <= s.ExitDate.value < LastSecondOfMonth(year, month).value
    requires MonthSchoolDays(holidays, year, month) > 0
    ensures s.GetMonthlyAttendanceValue(month, year, holidays)
      == Ok(CountDays(StudentFilter(holidays), DayOf(FirstOfMonth(year, month).value), DayOf(s.ExitDate.value))
            / MonthSchoolDays(holidays, year, month))
  {
    SchoolDaysFromMidnight(holidays, FirstOfMonth(year, month).value, s.ExitDate.value);
  }

  /** A count over a sub-interval of whole days never exceeds the count over those days. */
  lemma SchoolDaysWithinDays(holidays: seq<CharterSchoolScheduleDate>, first: DateTime, last: DateTime, from: DateTime, to: DateTime)
    requires first % SecondsPerDay == 0 && last % SecondsPerDay == SecondsPerDay - 1
    requires first <= last && first <= from && to <= last
    ensures SchoolDaysBetween(holidays, from, to) <= SchoolDaysBetween(holidays, first, last)
  {
    var f := StudentFilter(holidays);
    SchoolDaysFromMidnight(holidays, first, last);
    assert SchoolDaysBetween(holidays, first, last) == CountDays(f, DayOf(first), DayOf(last) + 1);
    if from < to {
      var lo, hi := DayOf(from), DayOf(from) + Steps(from, to);
      StepsWithin(first, last, from, to);
      CountDaysSubrange(f, DayOf(first), lo, hi, DayOf(last) + 1);
      assert SchoolDaysBetween(holidays, from, to) == CountDays(f, lo, hi);
    } else {
      assert Steps(from, to) == 0;
      assert SchoolDaysBetween(holidays, from, to) == 0;
    }
  }

  /** The days visited between `from` and `to` lie within the days of `first` to `last`. */
  lemma StepsWithin(first: DateTime, last: DateTime, from: DateTime, to: DateTime)
    requires first <= from < to <= last
    ensures DayOf(first) <= DayOf(from) && DayOf(from) + Steps(from, to) <= DayOf(last) + 1
  {
    StepsBound(from, to);
    DayOfMonotone(first, from);
    DayOfMonotone(to, last);
  }

  /** The numerator of either prorated path never exceeds the month's school days when it lies inside the month. */
  lemma SchoolDaysWithinMonth(holidays: seq<CharterSchoolScheduleDate>, year: int, month: int, from: DateTime, to: DateTime)
    requires LastSecondOfMonth(year, month).Ok?
    requires FirstOfMonth(year, month).value <= from && to <= LastSecondOfMonth(year, month).value
    ensures SchoolDaysBetween(holidays, from, to) <= MonthSchoolDays(holidays, year, month)
  {
    MonthEnds(year, month);
    SchoolDaysWithinDays(holidays, FirstOfMonth(year, month).value, LastSecondOfMonth(year, month).value, from, to);
  }

  /** An integer quotient of a count by a count at least as large is 0 or 1. */
  lemma QuotientZeroOrOne(a: nat, b: nat)
    requires 0 < b && a <= b
    ensures a / b == 0 || a / b == 1
  {
    if a < b {
      assert a / b == 0;
    } else {
      assert a / b == 1;
    }
  }

  /** With an entry date, every value is 0 or 1: the integer quotient of a count by a larger count. */
  lemma AttendanceZeroOrOne(s: Student, month: int, year: int, holidays: seq<CharterSchoolScheduleDate>)
    requires s.DistrictEntryDate.Some?
    requires s.GetMonthlyAttendanceValue(month, year, holidays).Ok?
    ensures s.GetMonthlyAttendanceValue(month, year, holidays).value in {0, 1}
  {
    var r := s.GetMonthlyAttendanceValue(month, year, holidays);
    var first, last := FirstOfMonth(year, month).value, LastSecondOfMonth(year, month).value;
    var entry := s.DistrictEntryDate.value;
    var daysInMonth := MonthSchoolDays(holidays, year, month);
    if !(entry <= first && (s.ExitDate.None? || s.ExitDate.value >= last)) {
      var attended: nat;
      if entry >= first {
        attended := SchoolDaysBetween(holidays, entry, last);
        SchoolDaysWithinMonth(holidays, year, month, entry, last);
      } else {
        attended := SchoolDaysBetween(holidays, first, s.ExitDate.value);
        SchoolDaysWithinMonth(holidays, year, month, first, s.ExitDate.value);
      }
      assert r == Ok(attended / daysInMonth);
      QuotientZeroOrOne(attended, daysInMonth);
    }
  }

  /**
   * Without an entry date the exit path may divide a count longer than the month: a student with
   * no entry date and an exit date after the month gets the month count of the longer range.
   */
  lemma AttendanceNoEntryUnbounded(s: Student, month: int, year: int, holidays: seq<CharterSchoolScheduleDate>)
    requires LastSecondOfMonth(year, month).Ok?
    requires s.DistrictEntryDate.None? && s.ExitDate.Some?
    requires MonthSchoolDays(holidays, year, month) > 0
    ensures s.GetMonthlyAttendanceValue(month, year, holidays)
      == Ok(SchoolDaysBetween(holidays, FirstOfMonth(year, month).value, s.ExitDate.value) / MonthSchoolDays(holidays, year, month))
  {
  }

  /** The missing-exit error happens exactly when neither date is present. */
  lemma AttendanceInvalidOperation(s: Student, month: int, year: int, holidays: seq<CharterSchoolScheduleDate>)
    requires LastSecondOfMonth(year, month).Ok?
    ensures s.GetMonthlyAttendanceValue(month, year, holidays) == Err(InvalidOperation)
      <==> s.DistrictEntryDate.None? && s.ExitDate.None?
  {
  }

  /**
   * Division by zero happens exactly when the month has no school days and the student is
   * neither enrolled for the whole month nor missing both dates.
   */
  lemma AttendanceDivideByZero(s: Student, month: int, year: int, holidays: seq<CharterSchoolScheduleDate>)
    requires LastSecondOfMonth(year, month).Ok?
    ensures var first, last := FirstOfMonth(year, month).value, LastSecondOfMonth(year, month).value;
      var fullMonth := s.DistrictEntryDate.Some? && s.DistrictEntryDate.value <= first
        && (s.ExitDate.None? || s.ExitDate.value >= last);
      (s.GetMonthlyAttendanceValue(month, year, holidays) == Err(DivideByZero) <==>
        !fullMonth && !(s.DistrictEntryDate.None? && s.ExitDate.None?) && MonthSchoolDays(holidays, year, month) == 0)
  {
  }
}
