# School district billing: the calendar and billing arithmetic, verified

SchoolDistrictBilling bills Pennsylvania school districts for the students they send to a
charter school. Each month it builds an invoice per district, and at the end of the school
year a reconciliation. It also produces the PDE student list and the "Instructional Days
Attended" reports. This project models the part of the program that decides numbers, rows
and names, and proves what that part promises:

- **Schedules.** A charter school's schedule has a grade band (`AppliesToGrade`) and counts
  school days between two dates, skipping weekends and the schedule's holidays. It memoises a
  full-year count and one count per month name. The schedule is a class with both caches as
  fields. Its invariant ties each cached entry to the query it counted.
- **Students.** A student record is a class. The model covers its in-place
  `CopyPropertiesFrom`, its half-open school-day count, and the monthly proration
  `GetMonthlyAttendanceValue`, with its integer divisions and its exceptions.
- **Calendar helpers.** `GetStartYear`, `LastDayOfMonth`, the report form's month and year
  tables, the July–June month tables, labels and titles of the days-attended reports, and a
  proleptic Gregorian calendar over whole seconds that these all rest on.
- **Invoice and reconciliation.** The invoice's month-to-cell map and its cumulative
  July-to-invoice-month loop, split between special-education and other students. The year-end
  buckets with their counts, membership days and days-in-session fallback. The payment-row
  state machine and the student-sheet layout.
- **Student import.** Header dispatch, and the upsert keyed by state student number and
  charter school.
- **PDE student list.** The month window of each student, the SP/NS rule, the REC rows of a
  reconciliation, and the row layout.
- **Days-attended reports.** Both variants: the sorted and filtered listing, the monthly
  values rounded up, the totals, and the grand-total formulas.
- **Report files.** Report paths and file names, in both copies: FileSystemServices' and the
  four-kind copy private to ExcelServices. The two differ only for reports sent to PDE.
- **District rates.** The latest rate per school district.

The program's exceptions are values of a `Result` type. Each names the .NET exception the
code would raise (FormatException, OverflowException, ArgumentOutOfRangeException,
NullReferenceException, InvalidOperationException, DivideByZeroException). Worksheet writes
are sequences of (cell, value) records.

## Model

| member | source | states |
|---|---|---|
| Text.Wrap32 | SchoolDistrictBilling/Services/DateServices.cs:16 | the unchecked Int32 subtraction `int.Parse(y) - 1` wraps modulo 2^32 and is the identity inside the Int32 range |
| Text.NatToStringValue | SchoolDistrictBilling/Reports/DaysAttendedReport.cs:219 | the decimal spelling used by `ToString()` reads back as the number it spells |
| Text.ParseInt32 | SchoolDistrictBilling/Reports/DaysAttendedReport.cs:95 | `int.Parse` yields an Int32 or fails with a format or overflow error, nothing else |
| Text.ParseInt32OfToString | SchoolDistrictBilling/Services/DateServices.cs:16 | parsing an Int32's own formatting gives the Int32 back |
| Text.ToUpper | SchoolDistrictBilling/Services/ExcelServices.cs:315 | `ToUpper` keeps the length and maps every character through the letter case table |
| Text.ToLower | SchoolDistrictBilling/Services/ExcelServices.cs:182 | `ToLower` keeps the length and maps every character through the letter case table |
| Text.ToUpperIsLetter | SchoolDistrictBilling/Services/ExcelServices.cs:315-329 | a flag upper-cases to "Y" (or "N") exactly when it is "Y"/"y" (or "N"/"n") |
| Text.RemoveWhiteSpace | SchoolDistrictBilling/Services/FileSystemServices.cs:73 | `Regex.Replace(s, @"\s+", "")` never lengthens a name |
| Text.RemoveWhiteSpaceLeavesNone | SchoolDistrictBilling/Services/FileSystemServices.cs:73 | no white space is left after the replacement |
| Text.RemoveWhiteSpaceKeepsOthers | SchoolDistrictBilling/Services/FileSystemServices.cs:73 | a name without white space is unchanged |
| Text.RemoveWhiteSpaceAppend | SchoolDistrictBilling/Services/FileSystemServices.cs:73 | stripping distributes over concatenation |
| Text.RemoveWhiteSpaceIdempotent | SchoolDistrictBilling/Services/FileSystemServices.cs:73 | stripping twice equals stripping once |
| Text.Substring | SchoolDistrictBilling/Reports/DaysAttendedReport.cs:225 | `Substring(start)` is the suffix from `start`, and fails exactly when `start` exceeds the length |
| Text.LexLeqTotal | SchoolDistrictBilling/Reports/DaysAttendedReport.cs:98 | the ordinal string order used for the name sort is total |
| Text.LexLeqTransitive | SchoolDistrictBilling/Reports/DaysAttendedReport.cs:98 | the ordinal string order is transitive |
| Text.LexLeqAntisymmetric | SchoolDistrictBilling/Reports/DaysAttendedReport.cs:98 | the ordinal string order is antisymmetric |
| Dates.Midnight | SchoolDistrictBilling/Models/CharterSchoolSchedule.cs:86 | the midnight of a day lies in that day, at second 0 |
| Dates.DayOfWithinDay | SchoolDistrictBilling/Models/CharterSchoolSchedule.cs:89 | every instant of a day's 86400 seconds has that day as its `.Date` |
| Dates.DayOfAddDays | SchoolDistrictBilling/Models/CharterSchoolSchedule.cs:86 | `AddDays(k)` moves the day k ahead and keeps the time of day |
| Dates.DayOfMonotone | SchoolDistrictBilling/Models/CharterSchoolSchedule.cs:86 | a later instant never has an earlier date |
| Dates.DateOf | SchoolDistrictBilling/Models/CharterSchoolSchedule.cs:86 | `.Date` is the midnight at or before the instant, less than a day before it, on the same day |
| Dates.MidnightAtOrBefore | SchoolDistrictBilling/Models/CharterSchoolSchedule.cs:86 | a day's midnight is at or before an instant exactly when the day is at or before the instant's day |
| Dates.DayOfWeek | SchoolDistrictBilling/Models/CharterSchoolSchedule.cs:97 | `DayOfWeek` is one of the seven values Sunday..Saturday |
| Dates.DayOfWeekPeriodic | SchoolDistrictBilling/Models/CharterSchoolSchedule.cs:97 | weekdays repeat every seven days |
| Dates.DaysInMonth | SchoolDistrictBilling/Models/ReportCriteriaView.cs:48 | a month has 28 to 31 days, and 29 exactly for February of a Gregorian leap year |
| Dates.DaysBeforeMonthStep | SchoolDistrictBilling/Models/ReportCriteriaView.cs:48 | each month's first day follows the previous month's last, and thirteen months' worth is the year |
| Dates.DaysBeforeMonthMonotone | SchoolDistrictBilling/Models/ReportCriteriaView.cs:48 | later months of a year start later |
| Dates.DaysBeforeYearStep | SchoolDistrictBilling/Models/ReportCriteriaView.cs:48 | each year starts where the previous one ends, by the Gregorian leap rule |
| Dates.DaysBeforeYearMonotone | SchoolDistrictBilling/Models/ReportCriteriaView.cs:48 | later years start later |
| Dates.YearFrom | SchoolDistrictBilling/Models/Student.cs:112 | `.Year` of a day is the year whose day range contains it |
| Dates.MonthFrom | SchoolDistrictBilling/Models/Student.cs:112 | `.Month` of a day is the month whose day range contains it |
| Dates.CivilOfDay | SchoolDistrictBilling/Models/Student.cs:112 | every day number is a valid calendar date whose day number it is |
| Dates.DayNumberInYear | SchoolDistrictBilling/Models/Student.cs:111 | a date's day number lies in its own year |
| Dates.YearsDisjoint | SchoolDistrictBilling/Models/Student.cs:112 | no day belongs to two years |
| Dates.MonthsDisjoint | SchoolDistrictBilling/Models/Student.cs:112 | no day belongs to two months of a year |
| Dates.CivilOfDayNumber | SchoolDistrictBilling/Models/Student.cs:111 | a valid date converted to its day number and back is the same date |
| Dates.DayNumberOfCivil | SchoolDistrictBilling/Models/Student.cs:111 | every day up to 9999-12-31 is the day number of the date it converts to |
| Dates.MonthOf | SchoolDistrictBilling/Services/ExcelServices.cs:510 | `.Month` is one of 1..12 |
| Dates.YearOf | SchoolDistrictBilling/Reports/PdeCsrStudentList.cs:90-92 | `.Year` is at least 1 |
| Dates.FirstOfMonth | SchoolDistrictBilling/Models/Student.cs:111 | `new DateTime(year, month, 1)` succeeds exactly for years 1..9999 and months 1..12, else ArgumentOutOfRange |
| Dates.FirstOfMonthCivil | SchoolDistrictBilling/Models/Student.cs:111 | the first of the month is midnight of the date year-month-01 |
| Dates.LastSecondOfMonth | SchoolDistrictBilling/Models/Student.cs:112 | the month-end chain succeeds exactly inside the calendar, December 9999 excepted, else ArgumentOutOfRange |
| Dates.LastSecondOfMonthCivil | SchoolDistrictBilling/Models/Student.cs:112 | the month-end chain gives 23:59:59 on the month's last calendar day |
| Dates.LastSecondOfDay | SchoolDistrictBilling/Models/Student.cs:112 | 23:59:59 is the last second of its own day |
| Dates.MonthEnds | SchoolDistrictBilling/Models/Student.cs:111-112 | a month starts at a midnight, ends at 23:59:59, and its start precedes its end |
| Dates.LastSecondBeforeNextMonth | SchoolDistrictBilling/Models/Student.cs:112 | the month's last second is one second before the first of the next month |
| Dates.MonthBounds | SchoolDistrictBilling/Models/Student.cs:111-114 | an instant lies between the first of a month and its last second exactly when it has that year and month |
| Dates.FirstOfMonthIncreasing | SchoolDistrictBilling/Reports/PdeCsrStudentList.cs:94-104 | a later calendar month starts later |
| Dates.LastSecondBeforeLaterMonth | SchoolDistrictBilling/Reports/PdeCsrStudentList.cs:94-104 | a month ends before any later month starts |
| Dates.MonthNameFrom | SchoolDistrictBilling/Models/ReportCriteriaView.cs:46 | the search finds the first month from m whose name matches ignoring case, or reports that none does |
| Dates.ParseMonthName | SchoolDistrictBilling/Models/ReportCriteriaView.cs:46 | `ParseExact(s, "MMMM")` gives the month whose name s spells in any case; FormatException exactly when no name matches |
| Dates.MonthNamesDistinct | SchoolDistrictBilling/Models/ReportCriteriaView.cs:46 | no two month names are equal ignoring case, so the parse is unambiguous |
| Dates.ParseMonthNameOfName | SchoolDistrictBilling/Models/ReportCriteriaView.cs:46 | parsing a month's own name gives that month |
| DateServices.GetStartYear | SchoolDistrictBilling/Services/DateServices.cs:7-18 | fails exactly when the month is not one of July..December and the year does not parse, with the parse's own error |
| DateServices.GetStartYearSecondHalf | SchoolDistrictBilling/Services/DateServices.cs:9-13 | July..December return the year string unchanged, even when it is not a number |
| DateServices.GetStartYearYearOrPrevious | SchoolDistrictBilling/Services/DateServices.cs:7-18 | for a formatted year y the result reads back as y for July..December and y - 1 for every other string |
| DateServices.LowercaseJulyIsFirstHalf | SchoolDistrictBilling/Services/DateServices.cs:9-17 | "july" parses as July elsewhere, yet gets year - 1 here because the list test is case-sensitive |
| DateServices.LowercaseJulyParses | SchoolDistrictBilling/Models/ReportCriteriaView.cs:46 | the month-name parse accepts "july" as July |
| ReportCriteria.MonthsAreMonthNames | SchoolDistrictBilling/Models/ReportCriteriaView.cs:22 | the Months list is the twelve month names January..December, each parsing to its own number |
| ReportCriteria.YearEndYearsAreConsecutive | SchoolDistrictBilling/Models/ReportCriteriaView.cs:23-24 | every YearEndYears entry is two consecutive entries of Years joined by "-" |
| ReportCriteria.LastDayOfMonth | SchoolDistrictBilling/Models/ReportCriteriaView.cs:43-49 | an unparseable month fails first, then an unparseable year; a result has the parsed month and year and the time 23:59:59 and falls on the month's last calendar day; with both parsed it fails exactly for a year outside 1..9999 or December 9999, and then with ArgumentOutOfRange |
| ReportCriteria.LastDayOfMonthOfName | SchoolDistrictBilling/Models/ReportCriteriaView.cs:43-49 | for a month name and a year in the calendar, the result is 23:59:59 on the month's last calendar day, one second before the next month |
| ReportCriteria.LastDayOfFebruary | SchoolDistrictBilling/Models/ReportCriteriaView.cs:48 | February ends on the 29th in Gregorian leap years and on the 28th otherwise |
| FileSystemServices.PathCombine | SchoolDistrictBilling/Services/FileSystemServices.cs:35 | `Path.Combine` with an empty part gives the other part |
| FileSystemServices.EndsWithTransitive | SchoolDistrictBilling/Services/FileSystemServices.cs:35 | a suffix of a suffix is a suffix |
| FileSystemServices.PathCombineEndsWith | SchoolDistrictBilling/Services/FileSystemServices.cs:35 | a non-empty file name is always the tail of the combined path |
| FileSystemServices.ReportLeaf | SchoolDistrictBilling/Services/FileSystemServices.cs:32-65 | every listed report kind has a file name ending ".xlsx"; an unlisted kind throws |
| FileSystemServices.LeafOf | SchoolDistrictBilling/Services/FileSystemServices.cs:32-65 | the per-kind file names end ".xlsx"; only the unlisted kind has none |
| FileSystemServices.GetReportFileName | SchoolDistrictBilling/Services/FileSystemServices.cs:28-66 | the file name exists exactly for the listed kinds and ends ".xlsx" |
| FileSystemServices.PathCombineEmpty | SchoolDistrictBilling/Services/FileSystemServices.cs:23-26 | combining onto the empty path is the identity, as the 4-argument overload's empty district name relies on |
| FileSystemServices.GetReportPath | SchoolDistrictBilling/Services/FileSystemServices.cs:69-87 | a report directory is never empty; it ends in the year for the year-level kinds, in "PDE" for a month-level report sent to PDE and in the month otherwise (layout in YearPathLayout and MonthPathExtendsYearPath) |
| FileSystemServices.GetReportFileNameNoDistrict | SchoolDistrictBilling/Services/FileSystemServices.cs:23-26 | the 4-argument overload names a file exactly for the listed kinds, ending ".xlsx"; for the school-named kinds it equals the 5-argument name (SchoolReportsIgnoreDistrict) |
| ExcelReportFiles.AsFileType | SchoolDistrictBilling/Services/ExcelServices.cs:1013-1019 | ExcelServices' four report kinds are FileSystemServices kinds with a file name; only YearEnd is saved per year |
| ExcelReportFiles.GetReportPath | SchoolDistrictBilling/Services/ExcelServices.cs:987-997 | the directory is never empty and ends in the year for the year-end reconciliation and in the month for every other kind, with no PDE folder |
| ExcelReportFiles.Leaf | SchoolDistrictBilling/Services/ExcelServices.cs:969-985 | every one of the four kinds has a file name, ending ".xlsx" |
| ExcelReportFiles.GetReportFileName | SchoolDistrictBilling/Services/ExcelServices.cs:965-985 | the file is the kind's name, ending ".xlsx", at the tail of the report's directory; no kind fails |
| ExcelReportFiles.LeafMatches | SchoolDistrictBilling/Services/ExcelServices.cs:969-985 | ExcelServices names each of its four kinds as FileSystemServices does |
| ExcelReportFiles.ReportPathMatchesUnlessPde | SchoolDistrictBilling/Services/ExcelServices.cs:987-997 | the two GetReportPath agree exactly when the report is the year-end reconciliation or is not sent to PDE; otherwise FileSystemServices adds a PDE folder below ExcelServices' directory |
| ExcelReportFiles.ReportFileNameMatchesUnlessPde | SchoolDistrictBilling/Services/ExcelServices.cs:965-997 | outside the PDE case both helpers name the same file |
| ExcelReportFiles.ReportFileNameInPdeFolder | SchoolDistrictBilling/Services/ExcelServices.cs:965-997 | a month-level report sent to PDE: FileSystemServices names the same file one PDE folder below the directory ExcelServices saves it in |
| FileSystemServices.MonthPathExtendsYearPath | SchoolDistrictBilling/Services/FileSystemServices.cs:71-85 | a month-level directory is the year-level directory plus the month, plus "PDE" exactly when SendTo is "PDE" |
| FileSystemServices.YearPathLayout | SchoolDistrictBilling/Services/FileSystemServices.cs:71-74 | YearEnd, PdeStudentListReconciliation and DaysAttended go to root/reports/<school without white space>/<year> |
| FileSystemServices.SchoolReportsIgnoreDistrict | SchoolDistrictBilling/Services/FileSystemServices.cs:23-56 | for the kinds named after the school, the 4-argument overload equals the 5-argument one whatever the district |
| FileSystemServices.LeafIgnoresWhiteSpace | SchoolDistrictBilling/Services/FileSystemServices.cs:35-62 | file names see the school and district names only with their white space removed |
| FileSystemServices.PathIgnoresWhiteSpace | SchoolDistrictBilling/Services/FileSystemServices.cs:73-77 | directories see the school name only with its white space removed |
| FileSystemServices.FileNameIgnoresWhiteSpace | SchoolDistrictBilling/Services/FileSystemServices.cs:28-62 | names differing only in white space give the same file |
| SchoolDistrictRates.RatesOf | SchoolDistrictBilling/Controllers/SchoolDistrictRatesController.cs:53 | the district's rates are exactly the listed rates with its uid |
| SchoolDistrictRates.MaxEffectiveDate | SchoolDistrictBilling/Controllers/SchoolDistrictRatesController.cs:58 | `Max` is an effective date some rate has, and no rate is dated later |
| SchoolDistrictRates.FirstDated | SchoolDistrictBilling/Controllers/SchoolDistrictRatesController.cs:59 | `First` picks a rate with that date, and no earlier rate in the list has it |
| SchoolDistrictRates.LatestRate | SchoolDistrictBilling/Controllers/SchoolDistrictRatesController.cs:53-59 | a rate found belongs to the district |
| SchoolDistrictRates.LatestRateIsLatest | SchoolDistrictBilling/Controllers/SchoolDistrictRatesController.cs:53-59 | no rate exactly when the district has none; otherwise one of its own rates with the latest date, ties going to the first in list order |
| SchoolDistrictRates.ViewDistricts | SchoolDistrictBilling/Controllers/SchoolDistrictRatesController.cs:61 | the districts of the view entries, position by position |
| SchoolDistrictRates.Index | SchoolDistrictBilling/Controllers/SchoolDistrictRatesController.cs:49-62 | the loop builds exactly the latest-rate view of the districts |
| SchoolDistrictRates.LatestRates | SchoolDistrictBilling/Controllers/SchoolDistrictRatesController.cs:49-62 | at most one entry per district, each for a listed district (pairing and order in LatestRatesShape) |
| SchoolDistrictRates.LatestRatesShape | SchoolDistrictBilling/Controllers/SchoolDistrictRatesController.cs:49-62 | one entry per district with rates, in district order, each paired with its latest rate |
| SchoolDistrictRates.ListedIffHasRate | SchoolDistrictBilling/Controllers/SchoolDistrictRatesController.cs:53-57 | a district is listed exactly when some rate belongs to it |
| SchoolDistrictRates.ListedStep | SchoolDistrictBilling/Controllers/SchoolDistrictRatesController.cs:51-62 | one more district is listed exactly when it has a rate, the earlier ones as before |
| SchoolYear.IndexOf | SchoolDistrictBilling/Reports/PdeCsrStudentList.cs:84-86 | `IndexOf` is the first position holding x, and -1 exactly when x is absent |
| SchoolYear.InvoiceMonthsBilled | SchoolDistrictBilling/Reports/PdeCsrStudentList.cs:72 | every month of the list [7..12, 1..5] has its list position as billing position |
| SchoolYear.IndexOfFirst | SchoolDistrictBilling/Reports/PdeCsrStudentList.cs:84-86 | a first occurrence is what `IndexOf` finds |
| SchoolYear.InvoiceMonthIndex | SchoolDistrictBilling/Services/ExcelServices.cs:797-800 | `IndexOf` on the invoice months is the billing position: July 0 .. May 10, June -1 |
| SchoolYear.InvoiceMonthsInverse | SchoolDistrictBilling/Reports/PdeCsrStudentList.cs:72 | position i holds month i + 7 for July..December and i - 5 for January..May |
| Schedules.QueryCountClamped | SchoolDistrictBilling/Models/CharterSchoolSchedule.cs:86-90 | only dates in both from.Date..to and FirstDay.Date..LastDay.Date are counted |
| Schedules.QueryCountDisjoint | SchoolDistrictBilling/Models/CharterSchoolSchedule.cs:86-90 | a range disjoint from the school year, or empty, counts 0 |
| Schedules.CharterSchoolSchedule.constructor | SchoolDistrictBilling/Models/CharterSchoolSchedule.cs:17-21 | FirstDay and LastDay are today's date, the caches empty |
| Schedules.CharterSchoolSchedule.ForSchool | SchoolDistrictBilling/Models/CharterSchoolSchedule.cs:22-30 | the school's uid, grades "K".."12", FirstDay and LastDay today's date, the caches empty |
| Schedules.CharterSchoolSchedule.CountScheduleDays | SchoolDistrictBilling/Models/CharterSchoolSchedule.cs:84-99 | the loop's count is the number of in-year, non-holiday weekdays from from.Date through to |
| Schedules.CharterSchoolSchedule.GetSchoolDays | SchoolDistrictBilling/Models/CharterSchoolSchedule.cs:70-113 | a positive stored year count answers a full-year call; a stored month-name entry answers a full-month call; otherwise the count is computed and stored under the flags; no other field changes and no month entry is overwritten |
| Schedules.CharterSchoolSchedule.CountAndStore | SchoolDistrictBilling/Models/CharterSchoolSchedule.cs:84-112 | the computed count is stored as the year count and under the month name exactly when the flags ask |
| Schedules.RepeatedCallAgrees | SchoolDistrictBilling/Models/CharterSchoolSchedule.cs:70-113 | two consecutive identical calls return the same value |
| Schedules.LaterFullYearCallReusesCount | SchoolDistrictBilling/Models/CharterSchoolSchedule.cs:73-105 | after a full-year call stores a positive count, a later full-year call returns it whatever its range and holidays |
| Schedules.SameMonthNameReusesCount | SchoolDistrictBilling/Models/CharterSchoolSchedule.cs:79-111 | a later full-month call in a same-named month returns the stored count whatever its year, end or holidays |
| Schedules.CharterSchoolSchedule.AppliesToGrade | SchoolDistrictBilling/Models/CharterSchoolSchedule.cs:61-68 | a null grade reads as 0, and no grade is in a band whose ends are reversed (numeric grades in AppliesToGradeNumeric, unparsed ones in AppliesToGradeUnparsed) |
| Text.TryParseInt32 | SchoolDistrictBilling/Models/CharterSchoolSchedule.cs:63-65 | int.TryParse: the parsed Int32 when the text parses, 0 when it is null or does not |
| Schedules.AppliesToGradeNumeric | SchoolDistrictBilling/Models/CharterSchoolSchedule.cs:61-68 | a numeric band contains exactly the numeric grades between its ends |
| Schedules.AppliesToGradeUnparsed | SchoolDistrictBilling/Models/CharterSchoolSchedule.cs:63 | an unparseable or missing grade is grade 0 |
| Schedules.KindergartenIsGradeZero | SchoolDistrictBilling/Models/CharterSchoolSchedule.cs:63-64 | "K" does not parse and so reads as 0 |
| Schedules.KindergartenToTwelve | SchoolDistrictBilling/Models/CharterSchoolSchedule.cs:61-68 | band K..12 contains "K" |
| Schedules.KindergartenToFive | SchoolDistrictBilling/Models/CharterSchoolSchedule.cs:61-68 | band K..5 contains "5" and not "6" |
| Schedules.KindergartenBandUnparsed | SchoolDistrictBilling/Models/CharterSchoolSchedule.cs:61-68 | a band starting at "K" with a non-negative end contains every unparseable grade |
| SchoolDays.CountDays | SchoolDistrictBilling/Models/CharterSchoolSchedule.cs:84-99 | a range never counts more days than it has |
| SchoolDays.CountDaysLast | SchoolDistrictBilling/Models/Student.cs:141-151 | a non-empty range never counts more days than it has |
| SchoolDays.CountDaysStep | SchoolDistrictBilling/Models/Student.cs:141-151 | extending a range by one day adds one exactly when that day is counted |
| SchoolDays.CountDaysIsCardinality | SchoolDistrictBilling/Models/CharterSchoolSchedule.cs:84-99 | the count is the number of counted days in the range |
| SchoolDays.CountDaysSplit | SchoolDistrictBilling/Models/Student.cs:141-151 | counts of adjacent ranges add up |
| SchoolDays.CountDaysSubrange | SchoolDistrictBilling/Models/Student.cs:141-151 | a sub-range never counts more |
| SchoolDays.CountDaysPositive | SchoolDistrictBilling/Models/Student.cs:121 | the count is positive exactly when some day of the range is counted |
| SchoolDays.CountDaysClamp | SchoolDistrictBilling/Models/CharterSchoolSchedule.cs:89-90 | the school-year test only clamps the range to FirstDay..LastDay |
| SchoolDays.CountDaysOutsideWindow | SchoolDistrictBilling/Models/CharterSchoolSchedule.cs:89-90 | a range outside the school year counts nothing |
| SchoolDays.CountDaysWeek | SchoolDistrictBilling/Models/CharterSchoolSchedule.cs:93-98 | seven in-year days with no holiday count exactly five |
| SchoolDays.WeekHasFiveWeekdays | SchoolDistrictBilling/Models/CharterSchoolSchedule.cs:97 | any seven consecutive days hold five weekdays |
| SchoolDays.DayOfWeekAfter | SchoolDistrictBilling/Models/CharterSchoolSchedule.cs:86-97 | the weekday k days later is k steps round the week |
| SchoolDays.CountDaysHolidaysAntitone | SchoolDistrictBilling/Models/CharterSchoolSchedule.cs:93-94 | more holidays never give more days |
| SchoolDays.ScheduleHolidaysMembers | SchoolDistrictBilling/Models/CharterSchoolSchedule.cs:93 | a day is skipped as a holiday exactly when a row of this schedule falls on it, whatever its time |
| SchoolDays.StudentHolidaysMembers | SchoolDistrictBilling/Models/Student.cs:145 | a day is skipped as a holiday exactly when a row is stored at that day's midnight |
| Students.CopiedFromKeepsThreeFields | SchoolDistrictBilling/Models/Student.cs:156-173 | copying makes the target the source except StudentUid, StateStudentNo and SpedFlag, which stay; copying again changes nothing |
| Students.StepsExact | SchoolDistrictBilling/Models/Student.cs:141 | the loop `date < to; date = date.AddDays(1)` runs exactly the number of days needed to reach `to` |
| Students.StepsBound | SchoolDistrictBilling/Models/Student.cs:141 | the visited dates never pass `to`'s day |
| Students.SchoolDaysFromMidnight | SchoolDistrictBilling/Models/Student.cs:139-154 | from a midnight, the loop counts from's day up to to's day, to's day only when `to` is past its midnight: a count to 23:59:59 includes the last day, a count to a midnight excludes it |
| Students.Student.FromData | SchoolDistrictBilling/Services/ExcelServices.cs:166-167 | a student holding the given fields |
| Students.Student.CopyPropertiesFrom | SchoolDistrictBilling/Models/Student.cs:156-173 | the fifteen listed fields take the other student's values and nothing else changes |
| Students.Student.GetSchoolDays | SchoolDistrictBilling/Models/Student.cs:139-154 | the loop counts the dates in [from, to) that are neither a listed holiday nor a weekend, with no school-year window |
| Students.MonthSchoolDaysRange | SchoolDistrictBilling/Models/Student.cs:120 | the month's school days are its calendar days that are neither listed holidays nor weekends |
| Students.Student.GetMonthlyAttendanceValue | SchoolDistrictBilling/Models/Student.cs:108-136 | fails only with ArgumentOutOfRange, InvalidOperation or DivideByZero; the value of each path and each error's exact condition are in the Attendance lemmas |
| Students.AttendanceBadMonth | SchoolDistrictBilling/Models/Student.cs:111-112 | a month the calendar cannot build is an ArgumentOutOfRange error |
| Students.AttendanceFullMonth | SchoolDistrictBilling/Models/Student.cs:114-118 | entry on or before the first and no exit before 23:59:59 of the last day give exactly 1 |
| Students.AttendanceEntryOnFirstIgnoresExit | SchoolDistrictBilling/Models/Student.cs:126-129 | entry on the first takes the entry path, so a mid-month exit is ignored and the value is 1 |
| Students.AttendanceExitBranch | SchoolDistrictBilling/Models/Student.cs:131-141 | the exit path counts from the first up to but excluding the exit day, divided by the month's school days |
| Students.SchoolDaysWithinDays | SchoolDistrictBilling/Models/Student.cs:128-134 | a count over part of a span of whole days never exceeds the count over the span |
| Students.StepsWithin | SchoolDistrictBilling/Models/Student.cs:141 | the visited days of a sub-range lie within the days of the range |
| Students.SchoolDaysWithinMonth | SchoolDistrictBilling/Models/Student.cs:128-134 | either prorated numerator is at most the month's school days |
| Students.QuotientZeroOrOne | SchoolDistrictBilling/Models/Student.cs:128-134 | an integer quotient of a count by a count at least as large is 0 or 1 |
| Students.AttendanceZeroOrOne | SchoolDistrictBilling/Models/Student.cs:121-135 | with an entry date every value is 0 or 1, and `decimal.Round(…, 3)` has nothing to round |
| Students.AttendanceNoEntryUnbounded | SchoolDistrictBilling/Models/Student.cs:131-135 | without an entry date the exit path divides the count up to the exit, which may run past the month |
| Students.AttendanceInvalidOperation | SchoolDistrictBilling/Models/Student.cs:133 | the `(DateTime)ExitDate` cast fails exactly when both dates are missing |
| Students.AttendanceDivideByZero | SchoolDistrictBilling/Models/Student.cs:120-134 | division by zero happens exactly when the month has no school days and the full-month and missing-dates cases do not apply |
| ExcelLayout.GetInvoiceMonthCell | SchoolDistrictBilling/Services/ExcelServices.cs:829-894 | a cell exists exactly for the billed months; it is column 'B' plus the month's billing position, row 13 for special education and 12 otherwise |
| ExcelLayout.InvoiceMonthCellExists | SchoolDistrictBilling/Services/ExcelServices.cs:829-894 | July..December and January..May have a cell; June and every other number throw |
| ExcelLayout.InvoiceMonthCellsDistinct | SchoolDistrictBilling/Services/ExcelServices.cs:829-894 | no two month and sped combinations share a cell |
| ExcelLayout.GetPaymentRow | SchoolDistrictBilling/Services/ExcelServices.cs:896-939 | a date's row is startRow plus the month's offset from July, so the throw never happens |
| ExcelLayout.PaymentRowOfMonth | SchoolDistrictBilling/Services/ExcelServices.cs:898-938 | months 1..12 map to startRow + 0..11 from July; any other number throws |
| ExcelLayout.PaymentMonths | SchoolDistrictBilling/Services/ExcelServices.cs:506-510 | one month in 1..12 per payment |
| ExcelLayout.PaymentMonthsAt | SchoolDistrictBilling/Services/ExcelServices.cs:510 | the k-th month is the k-th payment's date's month |
| ExcelLayout.PaymentCells | SchoolDistrictBilling/Services/ExcelServices.cs:533-614 | writing a payment fails exactly when its check number is null |
| ExcelLayout.PaymentWritesStaysErr | SchoolDistrictBilling/Services/ExcelServices.cs:503-549 | once a payment throws, the later payments are never reached |
| ExcelLayout.PopulatePayments | SchoolDistrictBilling/Services/ExcelServices.cs:501-615 | the loop writes each payment at its placed row or stops at the first that throws; on success a row is inserted for each payment in the same month as the one before, `rowIncrement` counts those repeats and `currentMonth` is the last payment's month |
| ExcelLayout.PlacePayment | SchoolDistrictBilling/Services/ExcelServices.cs:506-530 | the first payment takes its month's row; a repeat of the previous month increments `rowIncrement` and inserts its row; any other payment is shifted by `rowIncrement` |
| ExcelLayout.PaymentWritesStep | SchoolDistrictBilling/Services/ExcelServices.cs:532-548 | a payment's cells follow those of the payments before it |
| ExcelLayout.InsertedRowsStep | SchoolDistrictBilling/Services/ExcelServices.cs:512-517 | a payment inserts its row exactly when it repeats the previous month |
| ExcelLayout.RepeatsStep | SchoolDistrictBilling/Services/ExcelServices.cs:512-514 | `rowIncrement` grows by one exactly on a repeated month |
| ExcelLayout.RepeatsMonotone | SchoolDistrictBilling/Services/ExcelServices.cs:502-514 | `rowIncrement` never decreases |
| ExcelLayout.InsertedRowsCount | SchoolDistrictBilling/Services/ExcelServices.cs:514-517 | one row is inserted per repeated month |
| ExcelLayout.PaymentRowsIncrease | SchoolDistrictBilling/Services/ExcelServices.cs:506-530 | for payments in school-year order each lands below the previous one |
| ExcelLayout.UnorderedPaymentsShareRow | SchoolDistrictBilling/Services/ExcelServices.cs:506-530 | out of order, August, July, August puts the third payment on the first one's row |
| ExcelLayout.PaymentAmountWrittenOnce | SchoolDistrictBilling/Services/ExcelServices.cs:535-614 | the amount is written once, in the refund column exactly when negative (as its absolute value) |
| ExcelLayout.StudentRow | SchoolDistrictBilling/Services/ExcelServices.cs:723-734 | no student row is above row 12, and every eighth student starts a new 46-row block at its row 12 (block bounds in StudentRowsInBlock, disjointness in StudentRowsDisjoint) |
| ExcelLayout.StudentRowsInBlock | SchoolDistrictBilling/Services/ExcelServices.cs:723-734 | a student's four rows lie in its 46-row block, below the block's header |
| ExcelLayout.StudentRowsDisjoint | SchoolDistrictBilling/Services/ExcelServices.cs:734 | two students' rows never overlap |
| ExcelLayout.BlockCountStep | SchoolDistrictBilling/Services/ExcelServices.cs:725-731 | a block is copied exactly for every eighth student, as block i / 8 |
| ExcelLayout.StudentCells | SchoolDistrictBilling/Services/ExcelServices.cs:734-752 | a student writes thirteen cells, all in its own four rows |
| ExcelLayout.PopulateStudentSheet | SchoolDistrictBilling/Services/ExcelServices.cs:705-753 | one block copy per eight students, numbered 0, 1, …; the writes are exactly the students' cells, thirteen each |
| ExcelLayout.SheetCellsStep | SchoolDistrictBilling/Services/ExcelServices.cs:714-717 | adding a student's cells keeps the writes exactly the cells of the students so far |
| ExcelBilling.MonthlyBucketsPartition | SchoolDistrictBilling/Services/ExcelServices.cs:811-823 | every student's value goes to exactly one of the two monthly sums |
| ExcelBilling.MonthlySpedIsExactY | SchoolDistrictBilling/Services/ExcelServices.cs:815 | the monthly sped test is exactly the flag "Y": "y" and a null flag bill as non-sped |
| ExcelBilling.PopulateInvoiceMonthlyStudents | SchoolDistrictBilling/Services/ExcelServices.cs:806-827 | the loop writes the month's non-sped and sped sums to the month's two invoice cells |
| ExcelBilling.InvoicePrefixStep | SchoolDistrictBilling/Services/ExcelServices.cs:799-803 | one more month of the billing order appends that month's two cells |
| ExcelBilling.PopulateInvoiceMonthlyAmounts | SchoolDistrictBilling/Services/ExcelServices.cs:794-804 | an unparseable month name throws; otherwise the months of the billing order up to the invoice month are written in order, all with the same parsed `criteria.Year` |
| ExcelBilling.PopulateMonths | SchoolDistrictBilling/Services/ExcelServices.cs:799-803 | the loop writes the first monthIndex + 1 months of the billing order, or raises the year's parse error when there is a month to value |
| ExcelBilling.InvoiceWritesLayout | SchoolDistrictBilling/Services/ExcelServices.cs:799-826 | two cells per month, the k-th pair in the k-th month's cells, so no cell is written twice |
| ExcelBilling.JuneInvoiceWritesNothing | SchoolDistrictBilling/Services/ExcelServices.cs:797-800 | June has position -1 in the billing order, so a June invoice writes no monthly amounts |
| ExcelBilling.SelectsIsFilter | SchoolDistrictBilling/Services/ExcelServices.cs:315-329 | the bucket filters: null, empty or "N"/"n" for non-sped, "Y"/"y" for sped |
| ExcelBilling.Filter | SchoolDistrictBilling/Services/ExcelServices.cs:315-329 | a filter never yields more students than it is given |
| ExcelBilling.FilterMembers | SchoolDistrictBilling/Services/ExcelServices.cs:315-329 | the filter keeps exactly the students it selects |
| ExcelBilling.FirstNonZeroIsFirst | SchoolDistrictBilling/Services/ExcelServices.cs:323-340 | the days in session kept is 0 exactly when every student's is 0, else the first non-zero student's |
| ExcelBilling.BucketStep | SchoolDistrictBilling/Services/ExcelServices.cs:319-327 | one more selected student adds one to the count, its attendance to the sum, and sets the days in session if still 0 |
| ExcelBilling.InBucket | SchoolDistrictBilling/Services/ExcelServices.cs:315-329 | a selected student makes its bucket non-empty |
| ExcelBilling.BucketTotals | SchoolDistrictBilling/Services/ExcelServices.cs:315-341 | the loop succeeds exactly when the sped filter meets no null flag and the year parses or the bucket is empty; the count, sum and kept days are the filter's size, attendance sum and first non-zero value; a failure with no null flag met is the year's parse exception |
| ExcelBilling.BucketStudent | SchoolDistrictBilling/Services/ExcelServices.cs:319-341 | one student either ends the loop with its exception or is taken into the totals |
| ExcelBilling.YearEndBuckets | SchoolDistrictBilling/Services/ExcelServices.cs:315-344 | fails exactly on a null flag or an unparseable year with a selected student; a failure with an unparseable year is that year's parse exception, a null flag being met only after it; otherwise both buckets' counts, sums and days in session, a bucket still 0 taking the other's |
| ExcelImport.ApplyCell | SchoolDistrictBilling/Services/ExcelServices.cs:182-241 | a cell fails only under a date header, with the date parser's exception; it never changes the student's uid or charter school (field by field in ApplyCellStores) |
| ExcelImport.ReadCells | SchoolDistrictBilling/Services/ExcelServices.cs:170-246 | reading a row's cells never changes the student's uid or charter school |
| ExcelImport.ApplyCellStores | SchoolDistrictBilling/Services/ExcelServices.cs:182-241 | a cell under a known header (lower-cased) sets that one field, a date header only when the date parses (else the parser's exception); an unknown header changes nothing |
| ExcelImport.HeaderCells | SchoolDistrictBilling/Services/ExcelServices.cs:172-176 | row 1's non-null cells give at most one column name each |
| ExcelImport.IndexOfKey | SchoolDistrictBilling/Services/ExcelServices.cs:252 | `FirstOrDefault` finds the first stored student with the row's StateStudentNo and CharterSchoolUid, or reports that none has them |
| ExcelImport.StudentSet.StoredData | SchoolDistrictBilling/Services/ExcelServices.cs:252 | one record per stored student |
| ExcelImport.StudentSet.Upsert | SchoolDistrictBilling/Services/ExcelServices.cs:250-261 | the row is copied into the stored student with its key, or added when there is none |
| ExcelImport.ReadRow | SchoolDistrictBilling/Services/ExcelServices.cs:166-247 | row 1 extends the column names; any other row builds a new student of the school from its cells |
| ExcelImport.ImportStudents | SchoolDistrictBilling/Services/ExcelServices.cs:146-271 | the students become the import of every file's rows in order, or the first exception; the returned list is always empty |
| ExcelImport.ImportWorksheet | SchoolDistrictBilling/Services/ExcelServices.cs:152-264 | one file's worksheet is imported with its own column names |
| ExcelImport.ImportRows | SchoolDistrictBilling/Services/ExcelServices.cs:164-262 | the row loop imports the used range from its top row down, or stops at the first exception |
| ExcelImport.ImportRow | SchoolDistrictBilling/Services/ExcelServices.cs:166-261 | one row: the column names on row 1, an upsert below it, its exception ending the worksheet |
| ExcelImport.SheetRowsStep | SchoolDistrictBilling/Services/ExcelServices.cs:250-261 | a row below row 1 is upserted, row 1 upserts nothing |
| ExcelImport.ReadCellsStaysErr | SchoolDistrictBilling/Services/ExcelServices.cs:170-246 | a cell's exception ends the row |
| ExcelImport.SheetRowsStaysErr | SchoolDistrictBilling/Services/ExcelServices.cs:164-262 | a row's exception ends the worksheet |
| ExcelImport.ImportFilesStaysErr | SchoolDistrictBilling/Services/ExcelServices.cs:150-265 | a file's exception ends the import |
| ExcelImport.Masked | SchoolDistrictBilling/Services/ExcelServices.cs:242-244 | blanking cells keeps the row's length |
| ExcelImport.ReadCellsIgnoresUnknown | SchoolDistrictBilling/Services/ExcelServices.cs:242-244 | cells under unknown headers are ignored: blanking them builds the same student |
| ExcelImport.CellStepIgnoresUnknown | SchoolDistrictBilling/Services/ExcelServices.cs:242-244 | one cell under an unknown header changes nothing |
| ExcelImport.ToLowerIdempotent | SchoolDistrictBilling/Services/ExcelServices.cs:182 | lower-casing twice is lower-casing once |
| ExcelImport.LowerAll | SchoolDistrictBilling/Services/ExcelServices.cs:182 | every column name lower-cased, position by position |
| ExcelImport.ReadCellsIgnoresCase | SchoolDistrictBilling/Services/ExcelServices.cs:182 | headers match whatever their case |
| ExcelImport.CellStepIgnoresCase | SchoolDistrictBilling/Services/ExcelServices.cs:182 | one cell reads the same under a lower-cased header |
| ExcelImport.BlankHeaderShiftsColumns | SchoolDistrictBilling/Services/ExcelServices.cs:172-182 | a null header cell takes no place, so later headers shift left and the last column has none (ArgumentOutOfRange) |
| ExcelImport.ExtendsTransitive | SchoolDistrictBilling/Services/ExcelServices.cs:150-265 | importing in steps keeps the stored students' keys |
| ExcelImport.Upserted | SchoolDistrictBilling/Services/ExcelServices.cs:250-261 | an upsert keeps the number of stored students and adds the row or nothing (which one in UpsertedHoldsRow) |
| ExcelImport.UpsertedHoldsRow | SchoolDistrictBilling/Services/ExcelServices.cs:250-261 | a row is added exactly when no stored student has its key; otherwise the stored student with its key holds the row's fields |
| ExcelImport.DuplicateNewRowsBothAdded | SchoolDistrictBilling/Services/ExcelServices.cs:252-256 | two rows with the same new key are both added, since the lookup never sees rows added by the same import |
| ExcelImport.SheetRowsExtends | SchoolDistrictBilling/Services/ExcelServices.cs:164-262 | a worksheet changes no stored student's keys |
| ExcelImport.ImportFilesExtends | SchoolDistrictBilling/Services/ExcelServices.cs:150-265 | a successful import changes no stored student's StudentUid, StateStudentNo, SpedFlag or CharterSchoolUid |
| PdeStudentList.StudentRowCellsLayout | SchoolDistrictBilling/Reports/PdeCsrStudentList.cs:134-163 | a student row writes one cell per column from A in its own row, the month label in B, "SP" or "NS" in E, and the ADM in R only when the ADM is positive |
| PdeStudentList.HeaderRow | SchoolDistrictBilling/Reports/PdeCsrStudentList.cs:165-188 | the header row holds the 17 titles in row 1 from column A, plus "ADM" in R1 exactly for a year-end reconciliation |
| PdeStudentList.SheetWrites | SchoolDistrictBilling/Reports/PdeCsrStudentList.cs:76-108 | one worksheet row per list row |
| PdeStudentList.SheetWritesRows | SchoolDistrictBilling/Reports/PdeCsrStudentList.cs:76-108 | the k-th row of the list lands in worksheet row startRow + k, the row counter going up by one per row |
| PdeStudentList.SheetWritesAppend | SchoolDistrictBilling/Reports/PdeCsrStudentList.cs:76-108 | writing two lists one after the other is writing their concatenation, the second starting right under the first |
| PdeStudentList.SheetWritesExtend | SchoolDistrictBilling/Reports/PdeCsrStudentList.cs:76-108 | writing more rows from the current row continues the earlier writes as one list |
| PdeStudentList.IsSpedMonth | SchoolDistrictBilling/Reports/PdeCsrStudentList.cs:106 | a month is special education exactly when there is a current IEP date and either a prior IEP date or a current one before the month's last second (a null comparison is false) |
| PdeStudentList.MonthYear | SchoolDistrictBilling/Reports/PdeCsrStudentList.cs:90 | a month's year is the invoice year, or the year before exactly for July..December when the invoice month is January..May |
| PdeStudentList.StartIndex | SchoolDistrictBilling/Reports/PdeCsrStudentList.cs:81-85 | the first billed position is a month-list position or -1; a student entering after the first day starts at the position of the entry month, and -1 means an entry month with no invoice (June) |
| PdeStudentList.MonthsFrom | SchoolDistrictBilling/Reports/PdeCsrStudentList.cs:88-109 | the months the loop bills from position i all lie between i and the invoice month's position, inside the month list |
| PdeStudentList.MonthsAt | SchoolDistrictBilling/Reports/PdeCsrStudentList.cs:88-109 | one pass at position i and the rest of the loop bill only positions from i to the invoice month, inside the month list |
| PdeStudentList.StudentMonths | SchoolDistrictBilling/Reports/PdeCsrStudentList.cs:79-109 | every billed month is a position of the month-name list |
| PdeStudentList.MonthListRows | SchoolDistrictBilling/Reports/PdeCsrStudentList.cs:107 | one list row per billed month |
| PdeStudentList.MonthListRowsAt | SchoolDistrictBilling/Reports/PdeCsrStudentList.cs:107 | the k-th row carries the student, the k-th billed month's name, its student type and no ADM |
| PdeStudentList.Applies | SchoolDistrictBilling/Reports/PdeCsrStudentList.cs:79 | entry k says whether schedule k applies to the student's grade |
| PdeStudentList.FirstTrue | SchoolDistrictBilling/Reports/PdeCsrStudentList.cs:79 | the position found is -1 or a position of the list |
| PdeStudentList.FirstTrueIsFirst | SchoolDistrictBilling/Reports/PdeCsrStudentList.cs:79 | the position found holds true and no earlier one does; -1 means none does |
| PdeStudentList.ScheduleIndex | SchoolDistrictBilling/Reports/PdeCsrStudentList.cs:79 | the schedule found is -1 or a position of the schedule list |
| PdeStudentList.ScheduleIndexIsFirstMatch | SchoolDistrictBilling/Reports/PdeCsrStudentList.cs:79 | `Where(...).FirstOrDefault()` picks the first schedule that applies to the grade, and none exactly when no schedule applies |
| PdeStudentList.StudentResults | SchoolDistrictBilling/Reports/PdeCsrStudentList.cs:77-110 | one result per student, in the order of the students, each the student's own invoice rows |
| PdeStudentList.ConcatPrefixStep | SchoolDistrictBilling/Reports/PdeCsrStudentList.cs:77-110 | adding the next student to the list keeps the earlier rows and appends its rows, or stops at the first exception |
| PdeStudentList.AddStudentsToInvoice | SchoolDistrictBilling/Reports/PdeCsrStudentList.cs:70-111 | an invoice month that does not parse is a FormatError; otherwise the rows written from the first free row are the billed months of every student in order, or the first exception a student raises |
| PdeStudentList.AddInvoiceRows | SchoolDistrictBilling/Reports/PdeCsrStudentList.cs:76-110 | the student loop writes every student's rows in order from the start row, or stops at the first exception |
| PdeStudentList.AddStudent | SchoolDistrictBilling/Reports/PdeCsrStudentList.cs:79-109 | one student's rows follow from the schedule for its grade and its billed months, and the row counter moves past them |
| PdeStudentList.AddStudentMonths | SchoolDistrictBilling/Reports/PdeCsrStudentList.cs:88-109 | the month loop from a position writes one row per billed month from the start row, or raises the loop's exception |
| PdeStudentList.MonthLoopPass | SchoolDistrictBilling/Reports/PdeCsrStudentList.cs:88-109 | one pass of the month loop either ends with the student's whole result or writes at most one more row and continues at the next position |
| PdeStudentList.MonthLoopExit | SchoolDistrictBilling/Reports/PdeCsrStudentList.cs:95-98 | when the loop ends, the rows written so far are the student's rows, unless an exception ended it |
| PdeStudentList.PrependUnits | SchoolDistrictBilling/Reports/PdeCsrStudentList.cs:88-109 | prepending no months changes nothing, and months followed by none are those months |
| PdeStudentList.PrependStep | SchoolDistrictBilling/Reports/PdeCsrStudentList.cs:88-109 | prepending months one at a time is prepending them together |
| PdeStudentList.BillStep | SchoolDistrictBilling/Reports/PdeCsrStudentList.cs:107-108 | billing one more month writes one more row, right under the others, and the row counter goes up by one |
| PdeStudentList.MonthStep | SchoolDistrictBilling/Reports/PdeCsrStudentList.cs:90-106 | one pass either raises (a bad position or date), stops the loop (exit before the month's first day), skips the month (entry after its last second) or bills it with its student type |
| PdeStudentList.ConcatStep | SchoolDistrictBilling/Reports/PdeCsrStudentList.cs:77-110 | a student's rows follow the earlier students' rows; its exception is the whole loop's result |
| PdeStudentList.ConcatStaysErr | SchoolDistrictBilling/Reports/PdeCsrStudentList.cs:77-110 | once a student raises, later students change nothing |
| PdeStudentList.ReconStudentRows | SchoolDistrictBilling/Reports/PdeCsrStudentList.cs:118-130 | a student has an "SP" row exactly when its sped ADM is positive and an "NS" row exactly when its non-sped ADM is, "SP" first, each labelled "REC" with its positive ADM |
| PdeStudentList.ReconRowsStep | SchoolDistrictBilling/Reports/PdeCsrStudentList.cs:116-131 | one more student appends its reconciliation rows to the earlier ones |
| PdeStudentList.AddStudentsToReconciliation | SchoolDistrictBilling/Reports/PdeCsrStudentList.cs:113-131 | the rows written from the first free row are every student's reconciliation rows, in order |
| PdeStudentList.AddReconStudent | SchoolDistrictBilling/Reports/PdeCsrStudentList.cs:118-130 | one student writes its "SP" then "NS" rows from the current row, and the row counter moves past them |
| PdeStudentList.ReconStep | SchoolDistrictBilling/Reports/PdeCsrStudentList.cs:120-130 | writing the "SP" row when its ADM is positive, then the "NS" row one further down when its ADM is, is writing the student's reconciliation rows |
| PdeStudentList.ConsecutiveCons | SchoolDistrictBilling/Reports/PdeCsrStudentList.cs:88 | a month followed by a run starting at the next position is a run |
| PdeStudentList.EndsBeforeLater | SchoolDistrictBilling/Reports/PdeCsrStudentList.cs:90-92 | within the loop's range, a month's last second is before every later month's first day |
| PdeStudentList.StartsIncrease | SchoolDistrictBilling/Reports/PdeCsrStudentList.cs:90-91 | within the loop's range, later positions start later |
| PdeStudentList.MonthsFromCases | SchoolDistrictBilling/Reports/PdeCsrStudentList.cs:88-109 | a completed pass was at a month the calendar holds and then stopped on an exit before the month, skipped on an entry after it, or billed it with the sped rule on its last second |
| PdeStudentList.BilledMonthsBillable | SchoolDistrictBilling/Reports/PdeCsrStudentList.cs:88-109 | every billed month is billable (not left before it started, entered by its end) and typed by the sped rule |
| PdeStudentList.BillableMonthsBilled | SchoolDistrictBilling/Reports/PdeCsrStudentList.cs:88-109 | every billable month up to the invoice month is billed, unless an exception ends the loop |
| PdeStudentList.EnteredStays | SchoolDistrictBilling/Reports/PdeCsrStudentList.cs:101-104 | having entered by the end of one month, the student has entered by the end of every later month in range |
| PdeStudentList.BilledRunFrom | SchoolDistrictBilling/Reports/PdeCsrStudentList.cs:88-109 | from a month the student had entered by, the billed months are a gap-free run starting at that month |
| PdeStudentList.BilledRun | SchoolDistrictBilling/Reports/PdeCsrStudentList.cs:88-109 | the billed months are a gap-free run of positions |
| PdeStudentList.StudentMonthsAreWindow | SchoolDistrictBilling/Reports/PdeCsrStudentList.cs:79-109 | with no schedule for the grade the student raises NullReference; otherwise its billed months are exactly the billable positions from the start position to the invoice month's, a gap-free run, each typed by the sped rule |
| PdeStudentList.NoScheduleFails | SchoolDistrictBilling/Reports/PdeCsrStudentList.cs:79-81 | a student whose grade no schedule applies to raises NullReference |
| PdeStudentList.JuneEntryFails | SchoolDistrictBilling/Reports/PdeCsrStudentList.cs:81-92 | a June entry after the schedule's first day gives start position -1, and the list lookup at -1 raises ArgumentOutOfRange |
| PdeStudentList.JuneInvoiceBillsNothing | SchoolDistrictBilling/Reports/PdeCsrStudentList.cs:86-88 | a June invoice month has position -1, so the loop bills nothing, except for a June entry after the first day, which raises ArgumentOutOfRange |
| DaysAttended.SchoolYearMonthNumbers | SchoolDistrictBilling/Reports/DaysAttendedReport.cs:234-242 | twelve (month, year) pairs, each month in 1..12 and each year the end year or the year before |
| DaysAttended.SchoolYearMonthNumbersCover | SchoolDistrictBilling/Reports/DaysAttendedReport.cs:234-242 | the month table has the twelve months July..June, each once, July..December in the year before the end year (Int32 arithmetic) and January..June in the end year |
| DaysAttended.MonthLabelsMatchYearMonths | SchoolDistrictBilling/Reports/DaysAttendedReport.cs:215-242 | label k names the month of entry k of the month table and carries the digits of that entry's year |
| DaysAttended.SchoolYearMonths | SchoolDistrictBilling/Reports/DaysAttendedReport.cs:215-232 | twelve labels, only for a year that parses; the only exceptions are the parse's and Substring's |
| DaysAttended.SchoolYearMonthsFails | SchoolDistrictBilling/Reports/DaysAttendedReport.cs:215-232 | the month labels throw exactly when the year does not parse or either year's text is shorter than two characters, the latter as ArgumentOutOfRange |
| DaysAttended.SchoolYearMonthsOfOneDigit | SchoolDistrictBilling/Reports/DaysAttendedReport.cs:219 | the year "5" parses, but "4" has no two-character suffix, so the labels throw ArgumentOutOfRange |
| DaysAttended.SchoolYearMonthsOfYear | SchoolDistrictBilling/Reports/DaysAttendedReport.cs:215-232 | for a year formatted as Int32 formats it, the labels carry the last digits of the start and of the end year |
| DaysAttended.SchoolYearString | SchoolDistrictBilling/Reports/DaysAttendedReport.cs:244-249 | the title exists exactly when the year parses, and otherwise fails with the parser's exception |
| DaysAttended.Int32ToStringHasNoSlash | SchoolDistrictBilling/Reports/DaysAttendedReport.cs:248 | a formatted integer has no '/' |
| DaysAttended.SplitAtSlash | SchoolDistrictBilling/Reports/DaysAttendedReport.cs:248 | two slash-free numbers joined by '/' split back at that '/' into the same numbers |
| DaysAttended.YearTitleParts | SchoolDistrictBilling/Reports/DaysAttendedReport.cs:244-249 | the title's only '/' separates the start year from the end year, which both read back |
| DaysAttended.Ceiling | SchoolDistrictBilling/Reports/DaysAttendedReport.cs:162 | Math.Ceiling gives the least integer not below its argument |
| DaysAttended.MonthlyAttendance | SchoolDistrictBilling/Reports/DaysAttendedReport.cs:157-169 | a month's value is the days attended (sped plus non-sped) rounded up, with the days in session; both 0 when the lookup throws |
| DaysAttended.MonthValues | SchoolDistrictBilling/Reports/DaysAttendedReport.cs:119-122 | one value per month of the school year: twelve |
| DaysAttended.MonthCellsPlacement | SchoolDistrictBilling/Reports/DaysAttendedReport.cs:120-133 | the month loop writes one cell per month (two with the days in session), in the month's column of the student's row or of the session row |
| DaysAttended.MonthCellsDays | SchoolDistrictBilling/Reports/DaysAttendedReport.cs:122-123 | every month's days attended land in that month's column |
| DaysAttended.MonthCellsSession | SchoolDistrictBilling/Reports/DaysAttendedReport.cs:126-129 | with the days in session, every month's land in that month's column of row 4 |
| DaysAttended.StudentMonths | SchoolDistrictBilling/Reports/DaysAttendedReport.cs:115-133 | the month loop writes every month's cells and returns the sums of the days attended and of the days in session |
| DaysAttended.AddStudentRow | SchoolDistrictBilling/Reports/DaysAttendedReport.cs:108-141 | a listed student's pass writes its row from its year's monthly values |
| DaysAttended.StudentRowCellsLayout | SchoolDistrictBilling/Reports/DaysAttendedReport.cs:108-141 | a student's row holds its counter in A, every month's days attended from D and their total in P, in its own row, touching row 4 only as the first data row |
| DaysAttended.FirstRowFillsSession | SchoolDistrictBilling/Reports/DaysAttendedReport.cs:125-141 | the first data row also fills row 4 with every month's days in session and their sum in P |
| DaysAttended.OptLexLeqTotal | SchoolDistrictBilling/Reports/DaysAttendedReport.cs:98 | the name order compares any two names (null first) |
| DaysAttended.OptLexLeqTransitive | SchoolDistrictBilling/Reports/DaysAttendedReport.cs:98 | the name order is transitive |
| DaysAttended.OptLexLeqAntisymmetric | SchoolDistrictBilling/Reports/DaysAttendedReport.cs:98 | names each at most the other are equal |
| DaysAttended.NotOptLess | SchoolDistrictBilling/Reports/DaysAttendedReport.cs:98 | a name not strictly after another is at most it |
| DaysAttended.NameLeqTransitive | SchoolDistrictBilling/Reports/DaysAttendedReport.cs:98 | ordering by last name, then first name, is transitive |
| DaysAttended.NameLessAsymmetric | SchoolDistrictBilling/Reports/DaysAttendedReport.cs:98 | no two students are each strictly before the other |
| DaysAttended.InsertByNamePermutes | SchoolDistrictBilling/Reports/DaysAttendedReport.cs:98 | inserting a student adds exactly that student |
| DaysAttended.AppendSorted | SchoolDistrictBilling/Reports/DaysAttendedReport.cs:98 | a student not before any of a sorted list extends it sorted |
| DaysAttended.InsertedAtMost | SchoolDistrictBilling/Reports/DaysAttendedReport.cs:98 | inserting a student before the last one keeps every student at most the last |
| DaysAttended.InsertByNameSorted | SchoolDistrictBilling/Reports/DaysAttendedReport.cs:98 | inserting into a sorted list keeps it sorted |
| DaysAttended.SortByName | SchoolDistrictBilling/Reports/DaysAttendedReport.cs:98 | sorting keeps the number of students (name order in SortByNameSorted, permutation in SortByNamePermutes) |
| DaysAttended.SortByNameSorted | SchoolDistrictBilling/Reports/DaysAttendedReport.cs:98 | OrderBy(LastName).ThenBy(FirstName) yields a list in name order |
| DaysAttended.SortByNamePermutes | SchoolDistrictBilling/Reports/DaysAttendedReport.cs:98 | the sort keeps every student, as often as it occurs |
| DaysAttended.Listed | SchoolDistrictBilling/Reports/DaysAttendedReport.cs:100-106 | the loop lists no more students than it is given |
| DaysAttended.ListedStep | SchoolDistrictBilling/Reports/DaysAttendedReport.cs:100-106 | one more student is appended to the listed ones exactly when its yearly days are not 0 |
| DaysAttended.ListedMembers | SchoolDistrictBilling/Reports/DaysAttendedReport.cs:100-106 | a student is listed exactly when it is among the students and its yearly days are not 0 |
| DaysAttended.ListedSorted | SchoolDistrictBilling/Reports/DaysAttendedReport.cs:100-106 | skipping students keeps the name order |
| DaysAttended.DataCellsStep | SchoolDistrictBilling/Reports/DaysAttendedReport.cs:100-145 | the next listed student's row follows the others', numbered one past them |
| DaysAttended.DataCellsRows | SchoolDistrictBilling/Reports/DaysAttendedReport.cs:100-145 | the data cells lie in the listed students' rows or in row 4 |
| DaysAttended.DataCellsHoldRows | SchoolDistrictBilling/Reports/DaysAttendedReport.cs:100-145 | every listed student's cells are written |
| DaysAttended.DataCellsRowIsStudents | SchoolDistrictBilling/Reports/DaysAttendedReport.cs:100-145 | a cell in the k-th listed student's row is that student's |
| DaysAttended.DataCellsSessionFromFirst | SchoolDistrictBilling/Reports/DaysAttendedReport.cs:125-141 | the days in session in row 4 come from the first listed student alone |
| DaysAttended.TotalFormulas | SchoolDistrictBilling/Reports/DaysAttendedReport.cs:175-179 | the grand-total loop writes, for each column in its range and in order, the formula summing that column from row 5 down to the last row, in the total row |
| DaysAttended.AddGrandTotalRow | SchoolDistrictBilling/Reports/DaysAttendedReport.cs:171-180 | the grand total is the one formula summing column P from row 5 to the row above it |
| DaysAttended.PopulateStudentData | SchoolDistrictBilling/Reports/DaysAttendedReport.cs:92-155 | a year that does not parse throws the parser's exception; otherwise the report lists the students who attended in name order, adds the grand total if any was listed, and returns the counter past the last one, or 0 |
| DaysAttended.ListStudents | SchoolDistrictBilling/Reports/DaysAttendedReport.cs:100-145 | the student loop writes exactly the listed students' rows from row 6 and leaves row and counter one past the last listed student |
| DaysAttended.FinishReport | SchoolDistrictBilling/Reports/DaysAttendedReport.cs:147-154 | with a student listed the grand total row follows and the counter is returned; with none nothing is added and 0 is returned |
| DaysAttended.ListStudent | SchoolDistrictBilling/Reports/DaysAttendedReport.cs:100-145 | one pass skips a student who did not attend and otherwise appends its row, moving row and counter on by one |
| DaysAttended.DataCellsAppend | SchoolDistrictBilling/Reports/DaysAttendedReport.cs:108-144 | listing one more student appends its row, numbered one past the others |
| DaysAttended.TotalFormulaText | SchoolDistrictBilling/Reports/DaysAttendedReport.cs:177 | the total formula reads "SUM(P5:P<last row>)" |
| DaysAttended.GrandTotalCoversRows | SchoolDistrictBilling/Reports/DaysAttendedReport.cs:147-151 | with a student listed, the report ends with "SUM(P5:P<last data row>)" in the row under the last student, and returns one past the number listed |
| DaysAttended.NoStudentListed | SchoolDistrictBilling/Reports/DaysAttendedReport.cs:148-154 | with no student listed the loop writes nothing and the report returns 0 |
| DaysAttended.ListedStudentsAreAttendingInNameOrder | SchoolDistrictBilling/Reports/DaysAttendedReport.cs:98-106 | the rows list exactly the students who attended, in name order |
| DaysAttendedSimple.AddSimpleRow | SchoolDistrictBilling/Reports/DaysAttendedReportSimple.cs:89-108 | one pass writes the student's names in A and B, the month values from C and their total in O |
| DaysAttendedSimple.SimpleRowCellsLayout | SchoolDistrictBilling/Reports/DaysAttendedReportSimple.cs:91-106 | a student's row has fifteen cells, all in its own row within A..O, with every month's days attended from C and their total in O |
| DaysAttendedSimple.SimpleAgreesWithFull | SchoolDistrictBilling/Reports/DaysAttendedReportSimple.cs:96-106 | the simple and the full report write the same days attended for every month and the same total, one column further right in the full report |
| DaysAttendedSimple.SimpleDataCellsStep | SchoolDistrictBilling/Reports/DaysAttendedReportSimple.cs:89-109 | the next student's row follows the others', one row further down |
| DaysAttendedSimple.SimpleDataCellsRows | SchoolDistrictBilling/Reports/DaysAttendedReportSimple.cs:89-109 | every student gets fifteen cells, all in the rows from 5 to the last student's |
| DaysAttendedSimple.SimpleDataCellsRowIsStudent | SchoolDistrictBilling/Reports/DaysAttendedReportSimple.cs:89-109 | a cell in row 5 + k is the k-th student's |
| DaysAttendedSimple.SimpleDataCellsHoldRows | SchoolDistrictBilling/Reports/DaysAttendedReportSimple.cs:89-109 | every student's cells are written |
| DaysAttendedSimple.AddGrandTotalRowSimple | SchoolDistrictBilling/Reports/DaysAttendedReportSimple.cs:131-139 | the total row holds, for each of columns C..O, the formula summing that column from row 5 to row 4 + the number of students |
| DaysAttendedSimple.SimpleTotalsCoverRows | SchoolDistrictBilling/Reports/DaysAttendedReportSimple.cs:111-139 | with students, the totals follow the rows, in the row under the last student, and each sums exactly the students' rows of its column |
| DaysAttendedSimple.PopulateStudentDataSimple | SchoolDistrictBilling/Reports/DaysAttendedReportSimple.cs:84-116 | a year that does not parse throws the parser's exception; otherwise every student is written in the order given, then the totals if there is any student |
| DaysAttendedSimple.ListSimpleStudents | SchoolDistrictBilling/Reports/DaysAttendedReportSimple.cs:89-109 | the loop writes every student's row from row 5 and leaves the row one past the last student |

## Left out

- Workbook I/O through EPPlus is not modelled: opening templates, styles, number formats, `InsertRow`, range `Copy`, `Calculate`, `AutoFitColumns`, column widths and `SaveAs`. The model keeps only the cell addresses, row numbers and values the code computes, plus the rows it asks to insert or copy.
- Entity Framework queries and writes are not modelled: `SaveChanges`, the `ReportHistory` inserts and the holiday queries. Holidays are sets passed in. Students, schedules, districts and payments are sequences passed in.
- Several attendance and context methods are called by the reports but their bodies are not part of this model. They are function parameters, uninterpreted: `GetAttendanceCount`, `GetDaysInSession`, `GetYearlyAttendanceValue`, the five-result `GetMonthlyAttendanceValue`, `GetStudents`, `GetCharterSchoolSchedules`, `GetPayments` and `GetSchoolDistrictRate`.
- `ImportSchoolDistrictRates` (SchoolDistrictBilling/Services/ExcelServices.cs:20-144) queries and saves the database in the middle of parsing a row. It has no pure core apart from that.
- `ConvertFileToPdf` (SchoolDistrictBilling/Services/ExcelServices.cs:953-963) is a fire-and-forget HTTP call on a background task: network and concurrency.
- The controllers are not modelled, apart from the rate selection of `SchoolDistrictRatesController.Index`. This covers the CRUD controllers, the zip and temporary-folder handling of the invoice and reconciliation controllers, and the `Split("-")[1]` year extraction of the reconciliation controller.
- `PdeCsrTuitionRate` and `PdeCsrDirectPayment` are database lookups followed by cell writes.
- The report drivers are not modelled: `GenerateMonthlyInvoice`, `GenerateYearEndRecon` (apart from its bucketing loops), `UpdateInvoiceForPde`, `GenerateUnipayRequest`, `AddSchoolToUnipayRequest`, `PopulateInvoiceSheet`, `PopulateAdm`, `PopulatePrepDates`, `ClearCopiedSheet` and `SaveExcelFile` of ExcelServices, and the `Generate`, `PopulateHeader` and `ApplyFormatting` of the three reports. They only call the modelled operations, copy values from the database into cells, read the clock, touch files or style cells.
- The clock is not read: wherever the code reads `DateTime.Now` or `DateTime.Today` (the schedule constructors), the model takes "today" as a parameter.
- `DateTime.Parse` of an imported date cell is a function parameter, because .NET accepts too many date formats to model here.
- Culture-dependent behaviour is fixed:
  - month names are the English ones, and `ParseExact(..., "MMMM")` matches them case-insensitively;
  - `ToUpper` and `ToLower` map ASCII letters only;
  - string comparison in sorting is ordinal;
  - `Path.Combine` uses the Unix separator '/'.
- `decimal` is modelled exactly: as `real` where the code sums uninterpreted attendance values, and as `int` where every value is a whole number. Decimal overflow and rounding beyond three places are not modelled.
- The year-end membership-day and day-count sums are `int` in the source. Their Int32 overflow is not modelled. `int.Parse`, `ToString` and the `year - 1` of the report titles do keep Int32 range and wrap-around.
- Two parts of the source are duplicates, and each is modelled once:
  - `ExcelServices.GetStartYear` (SchoolDistrictBilling/Services/ExcelServices.cs:999-1010) as `DateServices.GetStartYear`;
  - the simple days-attended report's private copies of the month tables and title (SchoolDistrictBilling/Reports/DaysAttendedReportSimple.cs:141-175) as the DaysAttended functions.
- ExcelReportFiles.GetReportFileName: the district name is a string. `SaveExcelFile` (SchoolDistrictBilling/Services/ExcelServices.cs:941) defaults it to null, and Regex.Replace would throw on a null. The only call that omits it (SchoolDistrictBilling/Services/ExcelServices.cs:633) saves the Unipay request, whose name does not read the district.
- `SaveExcelFile` (SchoolDistrictBilling/Services/ExcelServices.cs:941-951) is not modelled: it writes the workbook to disk. Only its path and file name are modelled, as ExcelReportFiles.
- Students.Student.GetMonthlyAttendanceValue: its own contract states only the error kinds. Its values are stated by the Attendance lemmas beside it.
- DaysAttended.SortByName: LINQ's OrderBy/ThenBy is stable, so students with equal names keep their list order. The model sorts stably by insertion, but no lemma states that order, only that the result is in name order and a permutation.
- `SaveReportFile` is not modelled: it writes the workbook to disk. Only the path and the file name it uses are modelled.
