/**
 * The data-only entities the billing code reads: charter schools, school districts, their rates
 * and their payments. Nullable strings are `Option<string>`; `decimal` amounts are `real`.
 */
module Entities {
  import opened Wrappers
  import opened Dates

  datatype CharterSchool = CharterSchool(CharterSchoolUid: int, Name: string)

  datatype SchoolDistrict = SchoolDistrict(SchoolDistrictUid: int, Name: string, Aun: Option<string>)

  datatype SchoolDistrictRate = SchoolDistrictRate(
    SchoolDistrictRateUid: int,
    SchoolDistrictUid: int,
    NonSpedRate: real,
    SpedRate: real,
    EffectiveDate: DateTime,
    Notes: Option<string>,
    ThreeSixtyThreeFlag: bool)

  datatype Payment = Payment(
    PaymentUid: int,
    CharterSchoolUid: int,
    SchoolDistrictUid: int,
    Date: DateTime,
    CheckNo: Option<string>,
    Amount: real,
    PaidBy: Option<string>)
}
