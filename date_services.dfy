/**
 * DateServices.GetStartYear: the calendar year in which the school year of a billing month
 * began.
 */
module DateServices {
  import opened Wrappers
  import opened Text
  import Dates

  /** The months whose billing year starts in the same calendar year, spelled exactly. */
  const SecondHalfMonths: seq<string> := ["July", "August", "September", "October", "November", "December"]

  /**
   * The year string itself for July..December (matched with ordinal, case-sensitive equality);
   * otherwise int.Parse(year) - 1 formatted back, with the unchecked Int32 subtraction. A year
   * that does not parse is an error only on that second path.
   */
  function GetStartYear(month: string, currentYear: string): (r: Result<string>)
    ensures r.Err? <==> month !in SecondHalfMonths && ParseInt32(currentYear).Err?
    ensures r.Err? ==> r == Err(ParseInt32(currentYear).fault)
  {
    if month in SecondHalfMonths then Ok(currentYear)
    else
      match ParseInt32(currentYear)
      case Err(e) => Err(e)
      case Ok(y) => Ok(Int32ToString(Wrap32(y - 1)))
  }

  /** Any year string at all, even one that is not a number, passes through July..December. */
  lemma GetStartYearSecondHalf(month: string, currentYear: string)
    requires month in SecondHalfMonths
    ensures GetStartYear(month, currentYear) == Ok(currentYear)
  {
  }

  /**
   * For a formatted year y the result is y or y - 1: y exactly when the month is one of
   * July..December, read back as a number.
   */
  lemma GetStartYearYearOrPrevious(month: string, y: int)
    requires IsInt32(y) && y > Int32Min
    ensures var r := GetStartYear(month, Int32ToString(y));
      r.Ok? && ParseInt32(r.value) == Ok(if month in SecondHalfMonths then y else y - 1)
  {
    ParseInt32OfToString(y);
    ParseInt32OfToString(y - 1);
  }

  /**
   * The test is case-sensitive although month names are parsed without regard to case
   * elsewhere: "july" parses as July, yet is treated as a January..June month.
   */
  lemma LowercaseJulyIsFirstHalf(y: int)
    requires IsInt32(y) && y > Int32Min
    ensures Dates.ParseMonthName("july") == Ok(7)
    ensures GetStartYear("july", Int32ToString(y)) == Ok(Int32ToString(y - 1))
  {
    LowercaseJulyParses();
    assert "july" !in SecondHalfMonths;
    ParseInt32OfToString(y);
  }

  /** "july" is July to the month-name parser. */
  lemma LowercaseJulyParses()
    ensures Dates.ParseMonthName("july") == Ok(7)
  {
    assert Dates.EqualIgnoringCase("july", Dates.MonthName(7));
    forall k | 1 <= k < 7
      ensures !Dates.EqualIgnoringCase("july", Dates.MonthName(k))
    {
      Dates.MonthNamesDistinct(k, 7);
    }
  }
}
