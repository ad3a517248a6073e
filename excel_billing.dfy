/**
 * The billing aggregation of ExcelServices: the monthly invoice's cumulative July-to-invoice-month
 * sums, split between special-education and other students, and the year-end reconciliation's
 * counts, membership days and days in session per bucket.
 *
 * The attendance figures come from Student methods whose bodies are not part of this model; they
 * are function parameters here.
 */
module ExcelBilling {
  import opened Wrappers
  import opened Text
  import opened Dates
  import opened Sheets
  import opened SchoolYear
  import opened Students
  import opened ExcelLayout

  // ---------------------------------------------------------------- the monthly invoice

  /** The monthly split: special education is exactly the flag "Y", compared case-sensitively. */
  predicate IsMonthlySped(s: StudentData)
  {
    s.IepFlag == Some("Y")
  }

  /** The sum of `value` over the students the predicate selects, in list order. */
  function MonthlySum(students: seq<StudentData>, sped: bool, month: int, year: int, value: (StudentData, int, int) -> real): real
  {
    if |students| == 0 then 0.0
    else
      var last := students[|students| - 1];
      MonthlySum(students[..|students| - 1], sped, month, year, value) + (if IsMonthlySped(last) == sped then value(last, month, year) else 0.0)
  }

  function TotalSum(students: seq<StudentData>, month: int, year: int, value: (StudentData, int, int) -> real): real
  {
    if |students| == 0 then 0.0
    else TotalSum(students[..|students| - 1], month, year, value) + value(students[|students| - 1], month, year)
  }

  /** Every student's value goes to exactly one of the two buckets. */
  lemma {:induction false} MonthlyBucketsPartition(students: seq<StudentData>, month: int, year: int, value: (StudentData, int, int) -> real)
    ensures MonthlySum(students, true, month, year, value) + MonthlySum(students, false, month, year, value)
      == TotalSum(students, month, year, value)
  {
    if |students| > 0 {
      MonthlyBucketsPartition(students[..|students| - 1], month, year, value);
    }
  }

  /** A lower-case "y", a null flag and any other flag all bill as non-special-education. */
  lemma MonthlySpedIsExactY(s: StudentData)
    ensures IsMonthlySped(s) <==> s.IepFlag.Some? && s.IepFlag.value == "Y"
    ensures !IsMonthlySped(s.(IepFlag := Some("y"))) && !IsMonthlySped(s.(IepFlag := None))
  {
  }

  /** The two cells one month of the invoice writes: the non-special-education sum, then the other. */
  function MonthWrites(students: seq<StudentData>, month: int, year: int, value: (StudentData, int, int) -> real): seq<AddressWrite>
    requires BillingIndex(month) >= 0
  {
    [ AddressWrite(GetInvoiceMonthCell(month, false).value, NumberValue(MonthlySum(students, false, month, year, value))),
      AddressWrite(GetInvoiceMonthCell(month, true).value, NumberValue(MonthlySum(students, true, month, year, value))) ]
  }

  /**
   * PopulateInvoiceMonthlyStudents: sums every student's value for the month into one of two
   * buckets, then writes both sums to the month's cells.
   */
  method PopulateInvoiceMonthlyStudents(students: seq<StudentData>, month: int, year: int, value: (StudentData, int, int) -> real)
    returns (writes: seq<AddressWrite>)
    requires BillingIndex(month) >= 0
    ensures writes == MonthWrites(students, month, year, value)
  {
    var nonSpedStudents, spedStudents := 0.0, 0.0;
    var i := 0;
    while i < |students|
      invariant i <= |students|
      invariant nonSpedStudents == MonthlySum(students[..i], false, month, year, value)
      invariant spedStudents == MonthlySum(students[..i], true, month, year, value)
    {
      var student := students[i];
      assert students[..i + 1][..i] == students[..i];
      if student.IepFlag == Some("Y") {
        spedStudents := spedStudents + value(student, month, year);
      } else {
        nonSpedStudents := nonSpedStudents + value(student, month, year);
      }
      i := i + 1;
    }
    assert students[..i] == students;
    var nonSpedCell := GetInvoiceMonthCell(month, false);
    var spedCell := GetInvoiceMonthCell(month, true);
    writes := [AddressWrite(nonSpedCell.value, NumberValue(nonSpedStudents)), AddressWrite(spedCell.value, NumberValue(spedStudents))];
  }

  /** The writes for the months in order, each month valued in the same year. */
  function InvoiceWrites(students: seq<StudentData>, months: seq<int>, year: int, value: (StudentData, int, int) -> real): seq<AddressWrite>
    requires forall k :: 0 <= k < |months| ==> BillingIndex(months[k]) >= 0
  {
    if |months| == 0 then []
    else
      var m := months[|months| - 1];
      InvoiceWrites(students, months[..|months| - 1], year, value) + MonthWrites(students, m, year, value)
  }

  /** The writes for the first n months of the billing order, July first. */
  function InvoicePrefixWrites(students: seq<StudentData>, n: nat, year: int, value: (StudentData, int, int) -> real): seq<AddressWrite>
    requires n <= |InvoiceMonths|
  {
    InvoiceMonthsBilled();
    InvoiceWrites(students, InvoiceMonths[..n], year, value)
  }

  /** One more month appends that month's two cells. */
  lemma InvoicePrefixStep(students: seq<StudentData>, n: nat, year: int, value: (StudentData, int, int) -> real)
    requires n < |InvoiceMonths|
    ensures BillingIndex(InvoiceMonths[n]) >= 0
    ensures InvoicePrefixWrites(students, n + 1, year, value)
      == InvoicePrefixWrites(students, n, year, value) + MonthWrites(students, InvoiceMonths[n], year, value)
  {
    InvoiceMonthsBilled();
    assert InvoiceMonths[..n + 1][..n] == InvoiceMonths[..n];
  }

  /**
   * PopulateInvoiceMonthlyAmounts: the invoice month name is parsed (FormatError when it is not
   * one), then every month of the billing order up to and including it is populated, each with
   * `Int32.Parse(criteria.Year)`. June is not in the billing order, so an invoice for June writes
   * nothing and never parses the year.
   */
  method PopulateInvoiceMonthlyAmounts(criteriaMonth: string, criteriaYear: string, students: seq<StudentData>,
                                       value: (StudentData, int, int) -> real)
    returns (r: Result<seq<AddressWrite>>)
    ensures ParseMonthName(criteriaMonth).Err? ==> r == Err(FormatError)
    ensures ParseMonthName(criteriaMonth).Ok? ==>
      r == InvoiceAmounts(students, IndexOf(InvoiceMonths, ParseMonthName(criteriaMonth).value),
        ParseInt32(criteriaYear), value)
  {
    var parsedMonth := ParseMonthName(criteriaMonth);
    if parsedMonth.Err? {
      return Err(FormatError);
    }
    var invoiceMonth := parsedMonth.value;
    var monthIndex := IndexOf(InvoiceMonths, invoiceMonth);
    // Int32.Parse(criteria.Year) runs once per month with the same outcome each time: it is
    // evaluated once here, and its exception raised in the first month.
    r := PopulateMonths(students, monthIndex, ParseInt32(criteriaYear), value);
  }

  /**
   * What the month loop writes up to position `monthIndex` (-1: none), given the outcome of
   * parsing the year: the cells of every month, or the parse's exception once there is a month.
   */
  function InvoiceAmounts(students: seq<StudentData>, monthIndex: int, parsedYear: Result<int>,
                          value: (StudentData, int, int) -> real): Result<seq<AddressWrite>>
    requires -1 <= monthIndex < |InvoiceMonths|
  {
    if monthIndex >= 0 && parsedYear.Err? then Err(parsedYear.fault)
    else Ok(InvoicePrefixWrites(students, monthIndex + 1, if parsedYear.Ok? then parsedYear.value else 0, value))
  }

  /** The month loop of PopulateInvoiceMonthlyAmounts, up to the invoice month's position. */
  method PopulateMonths(students: seq<StudentData>, monthIndex: int, parsedYear: Result<int>,
                        value: (StudentData, int, int) -> real)
    returns (r: Result<seq<AddressWrite>>)
    requires -1 <= monthIndex < |InvoiceMonths|
    ensures r == InvoiceAmounts(students, monthIndex, parsedYear, value)
  {
    var invoiceMonths := InvoiceMonths;
    ghost var y := if parsedYear.Ok? then parsedYear.value else 0;
    var acc: seq<AddressWrite> := [];
    var i := 0;
    while i <= monthIndex
      invariant 0 <= i <= monthIndex + 1
      invariant i > 0 ==> parsedYear.Ok?
      invariant acc == InvoicePrefixWrites(students, i, y, value)
    {
      if parsedYear.Err? {
        return Err(parsedYear.fault);
      }
      var year := parsedYear.value;
      InvoicePrefixStep(students, i, y, value);
      var monthWrites := PopulateInvoiceMonthlyStudents(students, invoiceMonths[i], year, value);
      acc := acc + monthWrites;
      i := i + 1;
    }
    return Ok(acc);
  }

  /** The year every invoice month is valued in: the parsed year, or 0 where it is never used. */
  function YearOrZero(year: string): int
  {
    if ParseInt32(year).Ok? then ParseInt32(year).value else 0
  }

  /**
   * The invoice covers the months in order: two cells per month, the k-th pair in the k-th month,
   * so no cell is written twice.
   */
  lemma {:induction false} InvoiceWritesLayout(students: seq<StudentData>, months: seq<int>, year: int,
                                               value: (StudentData, int, int) -> real)
    requires forall k :: 0 <= k < |months| ==> BillingIndex(months[k]) >= 0
    ensures var w := InvoiceWrites(students, months, year, value);
      |w| == 2 * |months|
      && forall k :: 0 <= k < |months| ==>
           w[2 * k].address == GetInvoiceMonthCell(months[k], false).value
           && w[2 * k + 1].address == GetInvoiceMonthCell(months[k], true).value
  {
    var n := |months|;
    if n > 0 {
      var init := months[..n - 1];
      InvoiceWritesLayout(students, init, year, value);
      var m := months[n - 1];
      var before := InvoiceWrites(students, init, year, value);
      var w := InvoiceWrites(students, months, year, value);
      assert w == before + MonthWrites(students, m, year, value);
      forall k | 0 <= k < n
        ensures w[2 * k].address == GetInvoiceMonthCell(months[k], false).value
        ensures w[2 * k + 1].address == GetInvoiceMonthCell(months[k], true).value
      {
        if k < n - 1 {
          assert months[k] == init[k];
          assert w[2 * k] == before[2 * k] && w[2 * k + 1] == before[2 * k + 1];
        }
      }
    }
  }

  /** An invoice for June writes no monthly amounts: June has no position in the billing order. */
  lemma JuneInvoiceWritesNothing(students: seq<StudentData>, year: int, value: (StudentData, int, int) -> real)
    ensures IndexOf(InvoiceMonths, 6) == -1
    ensures InvoicePrefixWrites(students, IndexOf(InvoiceMonths, 6) + 1, year, value) == []
  {
    InvoiceMonthIndex(6);
  }

  // ---------------------------------------------------------------- the year-end reconciliation

  /** The year-end non-special-education filter: a null or empty flag, or "N" in either case. */
  predicate IsYearEndNonSped(s: StudentData)
  {
    s.IepFlag.None? || s.IepFlag.value == "" || ToUpper(s.IepFlag.value) == "N"
  }

  /** The year-end special-education filter: "Y" in either case. A null flag makes it throw. */
  predicate IsYearEndSped(s: StudentData)
  {
    s.IepFlag.Some? && ToUpper(s.IepFlag.value) == "Y"
  }

  /**
   * The filter of the special-education bucket when `sped`, of the other bucket otherwise, with
   * the upper-casing spelt out as the two cases of the one letter.
   */
  predicate Selects(s: StudentData, sped: bool)
  {
    if sped then s.IepFlag.Some? && (s.IepFlag.value == "Y" || s.IepFlag.value == "y")
    else s.IepFlag.None? || s.IepFlag.value == "" || s.IepFlag.value == "N" || s.IepFlag.value == "n"
  }

  /** Selects is the year-end filter of its bucket. */
  lemma SelectsIsFilter(s: StudentData, sped: bool)
    ensures Selects(s, sped) == if sped then IsYearEndSped(s) else IsYearEndNonSped(s)
  {
    if s.IepFlag.Some? {
      ToUpperIsLetter(s.IepFlag.value, 'Y');
      ToUpperIsLetter(s.IepFlag.value, 'N');
    }
  }

  function Filter(students: seq<StudentData>, sped: bool): (r: seq<StudentData>)
    ensures |r| <= |students|
  {
    if |students| == 0 then []
    else
      var last := students[|students| - 1];
      Filter(students[..|students| - 1], sped) + (if Selects(last, sped) then [last] else [])
  }

  /** The filter keeps exactly the students it selects. */
  lemma {:induction false} FilterMembers(students: seq<StudentData>, sped: bool)
    ensures forall x :: x in Filter(students, sped) <==> x in students && Selects(x, sped)
  {
    if |students| > 0 {
      var init := students[..|students| - 1];
      FilterMembers(init, sped);
      assert students == init + [students[|students| - 1]];
    }
  }

  function Sum(students: seq<StudentData>, year: int, f: (StudentData, int) -> int): int
  {
    if |students| == 0 then 0 else Sum(students[..|students| - 1], year, f) + f(students[|students| - 1], year)
  }

  /** The value the `if (total == 0) total = f(student)` loop ends with. */
  function FirstNonZero(students: seq<StudentData>, year: int, f: (StudentData, int) -> int): int
  {
    if |students| == 0 then 0
    else
      var before := FirstNonZero(students[..|students| - 1], year, f);
      if before != 0 then before else f(students[|students| - 1], year)
  }

  /** FirstNonZero is 0 when every value is, and otherwise the value of the first student whose value is not 0. */
  lemma {:induction false} FirstNonZeroIsFirst(students: seq<StudentData>, year: int, f: (StudentData, int) -> int)
    ensures var r := FirstNonZero(students, year, f);
      (r == 0 <==> forall k :: 0 <= k < |students| ==> f(students[k], year) == 0)
      && (r != 0 ==> exists k :: (0 <= k < |students| && f(students[k], year) == r
                                  && forall j :: 0 <= j < k ==> f(students[j], year) == 0))
  {
    if |students| > 0 {
      var init := students[..|students| - 1];
      FirstNonZeroIsFirst(init, year, f);
      assert forall k :: 0 <= k < |init| ==> init[k] == students[k];
      var before := FirstNonZero(init, year, f);
      if before != 0 {
        var k :| 0 <= k < |init| && f(init[k], year) == before && forall j :: 0 <= j < k ==> f(init[j], year) == 0;
        assert f(students[k], year) == before;
      }
    }
  }

  /** The count, the attendance sum and the first non-zero days in session of a bucket. */
  function BucketState(students: seq<StudentData>, sped: bool, year: int, f: (StudentData, int) -> int,
                       g: (StudentData, int) -> int): (int, int, int)
  {
    var bucket := Filter(students, sped);
    (|bucket|, Sum(bucket, year, f), FirstNonZero(bucket, year, g))
  }

  /** One more student: the bucket, its sum and its first non-zero value grow as the loops' bodies do. */
  lemma BucketStep(students: seq<StudentData>, i: nat, sped: bool, year: int,
                   f: (StudentData, int) -> int, g: (StudentData, int) -> int, count: int, days: int, first: int)
    requires i < |students|
    requires BucketState(students[..i], sped, year, f, g) == (count, days, first)
    ensures var x := students[i];
      BucketState(students[..i + 1], sped, year, f, g)
        == if Selects(x, sped) then (count + 1, days + f(x, year), if first == 0 then g(x, year) else first)
           else (count, days, first)
    ensures NoNullFlag(students[..i]) && students[i].IepFlag.Some? ==> NoNullFlag(students[..i + 1])
  {
    assert students[..i + 1][..i] == students[..i];
    var x := students[i];
    var before := Filter(students[..i], sped);
    if Selects(x, sped) {
      var after := before + [x];
      assert Filter(students[..i + 1], sped) == after;
      assert after[..|after| - 1] == before && after[|after| - 1] == x;
      assert Sum(after, year, f) == Sum(before, year, f) + f(x, year);
      assert FirstNonZero(after, year, g) == if FirstNonZero(before, year, g) == 0 then g(x, year) else FirstNonZero(before, year, g);
    } else {
      assert Filter(students[..i + 1], sped) == before;
    }
  }

  /** A student the filter selects makes the bucket non-empty. */
  lemma InBucket(students: seq<StudentData>, i: nat, sped: bool)
    requires i < |students| && Selects(students[i], sped)
    ensures |Filter(students, sped)| > 0
  {
    FilterMembers(students, sped);
    assert students[i] in Filter(students, sped);
  }

  /** The non-special-education filter selects every null flag: when it selects nobody, no flag is null. */
  lemma NoSelectedNoNullFlag(students: seq<StudentData>)
    requires |Filter(students, false)| == 0
    ensures NoNullFlag(students)
  {
    FilterMembers(students, false);
    forall k | 0 <= k < |students|
      ensures students[k].IepFlag.Some?
    {
      assert students[k] !in Filter(students, false);
    }
  }

  /** What the reconciliation writes to C10:E11. */
  datatype YearEndCounts = YearEndCounts(
    nonSpedCount: int, spedCount: int,
    nonSpedMembershipDays: int, spedMembershipDays: int,
    nonSpedDaysInSession: int, spedDaysInSession: int)

  /**
   * The reconciliation's figures: the two filters' sizes and attendance sums, and each bucket's
   * first non-zero days in session, a bucket still at 0 taking the other's.
   */
  function YearEndSpec(students: seq<StudentData>, year: int,
                       attendanceCount: (StudentData, int) -> int, daysInSession: (StudentData, int) -> int): YearEndCounts
  {
    var nonSped, sped := Filter(students, false), Filter(students, true);
    var nonSpedSession := FirstNonZero(nonSped, year, daysInSession);
    var spedSession := FirstNonZero(sped, year, daysInSession);
    var nonSpedFinal := if nonSpedSession == 0 then spedSession else nonSpedSession;
    var spedFinal := if spedSession == 0 then nonSpedFinal else spedSession;
    YearEndCounts(|nonSped|, |sped|, Sum(nonSped, year, attendanceCount), Sum(sped, year, attendanceCount),
                  nonSpedFinal, spedFinal)
  }

  predicate NoNullFlag(students: seq<StudentData>)
  {
    forall k :: 0 <= k < |students| ==> students[k].IepFlag.Some?
  }

  /**
   * One bucketing loop of GenerateYearEndRecon: for each student the bucket's filter selects, add
   * one to the count, add its attendance, and keep the first non-zero days in session, parsing
   * `criteria.Year` for every student it meets. The special-education filter throws on the first
   * null flag it reaches; the other filter selects a null flag. int.Parse(criteria.Year) has the
   * same outcome for every student, so `parsedYear` is that outcome, and its exception is raised
   * at the first selected student.
   */
  method BucketTotals(students: seq<StudentData>, parsedYear: Result<int>, sped: bool,
                      attendanceCount: (StudentData, int) -> int, daysInSession: (StudentData, int) -> int)
    returns (r: Result<(int, int, int)>)
    ensures r.Ok? <==> (sped ==> NoNullFlag(students)) && (parsedYear.Ok? || |Filter(students, sped)| == 0)
    ensures r.Err? && parsedYear.Ok? ==> r.fault == NullReference
    ensures r.Err? && (!sped || NoNullFlag(students)) ==> parsedYear.Err? && r.fault == parsedYear.fault
    ensures r.Ok? ==>
      var bucket := Filter(students, sped);
      var y := if parsedYear.Ok? then parsedYear.value else 0;
      r.value == (|bucket|, Sum(bucket, y, attendanceCount), FirstNonZero(bucket, y, daysInSession))
  {
    var year := if parsedYear.Ok? then parsedYear.value else 0;
    var studentCount, studentMembershipDays, studentTotalDaysInSession := 0, 0, 0;
    var i := 0;
    while i < |students|
      invariant i <= |students|
      invariant sped ==> NoNullFlag(students[..i])
      invariant studentCount > 0 ==> parsedYear.Ok?
      invariant BucketState(students[..i], sped, year, attendanceCount, daysInSession)
        == (studentCount, studentMembershipDays, studentTotalDaysInSession)
    {
      var exit;
      exit, studentCount, studentMembershipDays, studentTotalDaysInSession := BucketStudent(students, i, parsedYear,
        sped, year, attendanceCount, daysInSession, studentCount, studentMembershipDays, studentTotalDaysInSession);
      if exit.Some? {
        return Err(exit.value);
      }
      i := i + 1;
    }
    assert students[..i] == students;
    r := Ok((studentCount, studentMembershipDays, studentTotalDaysInSession));
  }

  /**
   * Student i of a bucketing loop: a null flag met by the special-education filter, or a selected
   * student when the year does not parse, ends the loop with its exception; otherwise the totals
   * take in the student.
   */
  method BucketStudent(students: seq<StudentData>, i: nat, parsedYear: Result<int>, sped: bool, year: int,
                       attendanceCount: (StudentData, int) -> int, daysInSession: (StudentData, int) -> int,
                       studentCount: int, studentMembershipDays: int, studentTotalDaysInSession: int)
    returns (exit: Option<Fault>, count: int, days: int, first: int)
    requires i < |students| && year == (if parsedYear.Ok? then parsedYear.value else 0)
    requires sped ==> NoNullFlag(students[..i])
    requires studentCount > 0 ==> parsedYear.Ok?
    requires BucketState(students[..i], sped, year, attendanceCount, daysInSession)
      == (studentCount, studentMembershipDays, studentTotalDaysInSession)
    ensures exit.Some? ==>
      || (exit.value == NullReference && sped && !NoNullFlag(students))
      || (parsedYear.Err? && exit.value == parsedYear.fault && |Filter(students, sped)| > 0)
    ensures exit.None? ==> sped ==> NoNullFlag(students[..i + 1])
    ensures exit.None? ==> count > 0 ==> parsedYear.Ok?
    ensures exit.None? ==>
      BucketState(students[..i + 1], sped, year, attendanceCount, daysInSession) == (count, days, first)
  {
    count, days, first := studentCount, studentMembershipDays, studentTotalDaysInSession;
    var student := students[i];
    var selected;
    if sped {
      if student.IepFlag.None? {
        assert !NoNullFlag(students);
        return Some(NullReference), count, days, first;
      }
      selected := IsYearEndSped(student);
    } else {
      selected := IsYearEndNonSped(student);
    }
    BucketStep(students, i, sped, year, attendanceCount, daysInSession, count, days, first);
    SelectsIsFilter(student, sped);
    if selected {
      if parsedYear.Err? {
        InBucket(students, i, sped);
        return Some(parsedYear.fault), count, days, first;
      }
      count := count + 1;
      days := days + attendanceCount(student, year);
      if first == 0 {
        first := daysInSession(student, year);
      }
    }
    exit := None;
  }

  /**
   * The year-end figures for one district: the non-special-education loop, then the
   * special-education loop, then a bucket with 0 days in session takes the other's.
   */
  method YearEndBuckets(students: seq<StudentData>, criteriaYear: string,
                        attendanceCount: (StudentData, int) -> int, daysInSession: (StudentData, int) -> int)
    returns (r: Result<YearEndCounts>)
    ensures r.Ok? <==> NoNullFlag(students) && (ParseInt32(criteriaYear).Ok? || |Filter(students, false)| + |Filter(students, true)| == 0)
    ensures r.Err? && ParseInt32(criteriaYear).Ok? ==> r.fault == NullReference
    ensures r.Err? && ParseInt32(criteriaYear).Err? ==> r.fault == ParseInt32(criteriaYear).fault
    ensures r.Ok? ==> r.value == YearEndSpec(students, YearOrZero(criteriaYear), attendanceCount, daysInSession)
  {
    var parsedYear := ParseInt32(criteriaYear);
    var nonSped := BucketTotals(students, parsedYear, false, attendanceCount, daysInSession);
    if nonSped.Err? {
      return Err(nonSped.fault);
    }
    var sped := BucketTotals(students, parsedYear, true, attendanceCount, daysInSession);
    if sped.Err? {
      if parsedYear.Err? {
        // the non-special-education loop selects every null flag, so it met none
        NoSelectedNoNullFlag(students);
      }
      return Err(sped.fault);
    }
    var nonSpedStudentTotalDaysInSession, spedStudentTotalDaysInSession := nonSped.value.2, sped.value.2;
    if nonSpedStudentTotalDaysInSession == 0 {
      nonSpedStudentTotalDaysInSession := spedStudentTotalDaysInSession;
    }
    if spedStudentTotalDaysInSession == 0 {
      spedStudentTotalDaysInSession := nonSpedStudentTotalDaysInSession;
    }
    r := Ok(YearEndCounts(nonSped.value.0, sped.value.0, nonSped.value.1, sped.value.1,
                          nonSpedStudentTotalDaysInSession, spedStudentTotalDaysInSession));
  }
}
