/**
 * FileSystemServices: where each report is saved. Paths are joined with Path.Combine using the
 * Unix separator '/', and charter school and school district names lose every run of white
 * space.
 */
module FileSystemServices {
  import opened Wrappers
  import opened Text

  /** The report kinds with a file name; `Unlisted` stands for any other value of the enum. */
  datatype FileType = Invoice | Student | ReconStudent | Unipay | YearEnd | PdeStudentList
    | PdeDirectPayment | PdeTuitionRate | PdeStudentListReconciliation | DaysAttended | Unlisted

  /** The parts of ReportCriteriaView the paths use; SendTo may be null. */
  datatype Criteria = Criteria(Month: string, Year: string, SendTo: Option<string>)

  predicate IsRooted(p: string) { |p| > 0 && p[0] == '/' }

  /**
   * Path.Combine(a, b): b alone when it is rooted or a is empty, a alone when b is empty,
   * otherwise a and b with one separator between them.
   */
  function PathCombine(a: string, b: string): (r: string)
    ensures |b| == 0 ==> r == a
    ensures |a| == 0 ==> r == b
  {
    if |b| == 0 then a
    else if |a| == 0 || IsRooted(b) then b
    else if a[|a| - 1] == '/' then a + b
    else a + "/" + b
  }

  predicate EndsWith(s: string, suffix: string)
  {
    |suffix| <= |s| && s[|s| - |suffix|..] == suffix
  }

  lemma EndsWithTransitive(s: string, t: string, u: string)
    requires EndsWith(s, t) && EndsWith(t, u)
    ensures EndsWith(s, u)
  {
    assert s[|s| - |u|..] == t[|t| - |u|..];
  }

  /** A non-empty second part is always the tail of the combined path. */
  lemma PathCombineEndsWith(a: string, b: string)
    requires |b| > 0
    ensures EndsWith(PathCombine(a, b), b)
  {
    var r := PathCombine(a, b);
    if |a| > 0 && !IsRooted(b) {
      if a[|a| - 1] == '/' {
        assert r == a + b;
      } else {
        assert r == (a + "/") + b;
      }
    }
  }

  /** A combined path ends with its last part, unless that part is empty. */
  lemma EndsWithPart(a: string, b: string)
    ensures |b| > 0 ==> EndsWith(PathCombine(a, b), b)
  {
    if |b| > 0 {
      PathCombineEndsWith(a, b);
    }
  }

  /** The report kinds saved per school year rather than per month. */
  predicate IsYearLevel(t: FileType)
  {
    t == YearEnd || t == PdeStudentListReconciliation || t == DaysAttended
  }

  /**
   * root/reports/<school>/<year> for the year-level reports; root/reports/<school>/<year>/<month>
   * for the others, with a further PDE folder when the report is sent to PDE. Path.Combine of
   * several parts is the two-part Path.Combine applied from left to right.
   */
  function GetReportPath(t: FileType, rootPath: string, c: Criteria, charterSchoolName: string): (r: string)
    ensures |r| > 0
    ensures IsYearLevel(t) && |c.Year| > 0 ==> EndsWith(r, c.Year)
    ensures !IsYearLevel(t) && c.SendTo == Some("PDE") ==> EndsWith(r, "PDE")
    ensures !IsYearLevel(t) && c.SendTo != Some("PDE") && |c.Month| > 0 ==> EndsWith(r, c.Month)
  {
    var school := PathCombine(PathCombine(rootPath, "reports"), RemoveWhiteSpace(charterSchoolName));
    EndsWithPart(school, c.Year);
    EndsWithPart(PathCombine(school, c.Year), c.Month);
    EndsWithPart(PathCombine(PathCombine(school, c.Year), c.Month), "PDE");
    if IsYearLevel(t) then
      PathCombine(school, c.Year)
    else
      var path := PathCombine(PathCombine(school, c.Year), c.Month);
      if c.SendTo == Some("PDE") then PathCombine(path, "PDE") else path
  }

  /** The file name of each report kind inside its directory. */
  function ReportLeaf(t: FileType, c: Criteria, charterSchoolName: string, schoolDistrictName: string): (r: Result<string>)
    ensures r.Ok? <==> t != Unlisted
    ensures r.Ok? ==> EndsWith(r.value, ".xlsx")
  {
    LeafOf(t, c, RemoveWhiteSpace(charterSchoolName), RemoveWhiteSpace(schoolDistrictName))
  }

  /** The file name of a report kind, from the names with their white space already removed. */
  function LeafOf(t: FileType, c: Criteria, school: string, district: string): (r: Result<string>)
    ensures r.Ok? <==> t != Unlisted
    ensures r.Ok? ==> EndsWith(r.value, ".xlsx")
  {
    if t == Unlisted then Err(GeneralError("Invalid report type passed to GetReportFileName."))
    else
      var stem := match t
        case Invoice => c.Month + c.Year + district
        case Student => c.Month + c.Year + district + "Student"
        case ReconStudent => c.Year + district + "Student"
        case Unipay => school + "Unipay"
        case YearEnd => c.Year + district + "YearEnd"
        case PdeStudentList => school + "PdeCsrStudentList"
        case PdeDirectPayment => school + "PdeCsrDirectPayment"
        case PdeTuitionRate => school + "PdeCsrTuitionRate"
        case PdeStudentListReconciliation => c.Year + school + "PdeCsrStudentListRecon"
        case DaysAttended => c.Year + district + "DaysAttended"
        case Unlisted => "";
      assert (stem + ".xlsx")[|stem|..] == ".xlsx";
      Ok(stem + ".xlsx")
  }

  /** The 5-argument GetReportFileName: the report's directory joined with its file name. */
  function GetReportFileName(t: FileType, rootPath: string, c: Criteria, charterSchoolName: string,
                             schoolDistrictName: string): (r: Result<string>)
    ensures r.Ok? <==> t != Unlisted
    ensures r.Ok? ==> EndsWith(r.value, ".xlsx")
  {
    var leaf := ReportLeaf(t, c, charterSchoolName, schoolDistrictName);
    if leaf.Err? then Err(leaf.fault)
    else
      var path := GetReportPath(t, rootPath, c, charterSchoolName);
      PathCombineEndsWith(path, leaf.value);
      EndsWithTransitive(PathCombine(path, leaf.value), leaf.value, ".xlsx");
      Ok(PathCombine(path, leaf.value))
  }

  /** The 4-argument GetReportFileName: no school district name. */
  function GetReportFileNameNoDistrict(t: FileType, rootPath: string, c: Criteria, charterSchoolName: string): (r: Result<string>)
    ensures r.Ok? <==> t != Unlisted
    ensures r.Ok? ==> EndsWith(r.value, ".xlsx")
  {
    GetReportFileName(t, rootPath, c, charterSchoolName, "")
  }

  // ---------------------------------------------------------------- properties

  /** Combining onto the empty path gives the path itself. */
  lemma PathCombineEmpty(p: string)
    ensures PathCombine("", p) == p
  {
  }

  /**
   * A month-level directory is the year-level directory of the same school and year with the
   * month appended, and then PDE when the report goes to PDE.
   */
  lemma MonthPathExtendsYearPath(t: FileType, rootPath: string, c: Criteria, charterSchoolName: string)
    requires !IsYearLevel(t)
    ensures var month := PathCombine(GetReportPath(YearEnd, rootPath, c, charterSchoolName), c.Month);
      GetReportPath(t, rootPath, c, charterSchoolName)
        == if c.SendTo == Some("PDE") then PathCombine(month, "PDE") else month
  {
  }

  /**
   * With a root that does not end in '/', a school name that keeps at least one character and
   * does not start with '/', and a year that is neither empty nor rooted, a year-level directory
   * is root/reports/<school without white space>/<year>.
   */
  lemma YearPathLayout(t: FileType, rootPath: string, c: Criteria, charterSchoolName: string)
    requires IsYearLevel(t)
    requires |rootPath| > 0 && rootPath[|rootPath| - 1] != '/'
    requires var school := RemoveWhiteSpace(charterSchoolName);
      |school| > 0 && school[0] != '/' && school[|school| - 1] != '/'
    requires |c.Year| > 0 && !IsRooted(c.Year)
    ensures GetReportPath(t, rootPath, c, charterSchoolName)
      == rootPath + "/reports/" + RemoveWhiteSpace(charterSchoolName) + "/" + c.Year
  {
    var school := RemoveWhiteSpace(charterSchoolName);
    var a := PathCombine(rootPath, "reports");
    assert a == rootPath + "/" + "reports";
    assert a[|a| - 1] == 's';
    var b := PathCombine(a, school);
    assert b == a + "/" + school;
    assert b[|b| - 1] == school[|school| - 1];
    assert PathCombine(b, c.Year) == b + "/" + c.Year;
  }

  /** The reports named after the school alone are the same whatever district name is passed. */
  lemma SchoolReportsIgnoreDistrict(t: FileType, rootPath: string, c: Criteria, charterSchoolName: string,
                                    schoolDistrictName: string)
    requires t in {Unipay, PdeStudentList, PdeDirectPayment, PdeTuitionRate, PdeStudentListReconciliation}
    ensures GetReportFileName(t, rootPath, c, charterSchoolName, schoolDistrictName)
      == GetReportFileNameNoDistrict(t, rootPath, c, charterSchoolName)
  {
  }

  lemma LeafIgnoresWhiteSpace(t: FileType, c: Criteria, charterSchoolName: string, schoolDistrictName: string)
    ensures ReportLeaf(t, c, charterSchoolName, schoolDistrictName)
      == ReportLeaf(t, c, RemoveWhiteSpace(charterSchoolName), RemoveWhiteSpace(schoolDistrictName))
  {
    RemoveWhiteSpaceIdempotent(charterSchoolName);
    RemoveWhiteSpaceIdempotent(schoolDistrictName);
    var school, district := RemoveWhiteSpace(charterSchoolName), RemoveWhiteSpace(schoolDistrictName);
    assert ReportLeaf(t, c, charterSchoolName, schoolDistrictName) == LeafOf(t, c, school, district);
    assert ReportLeaf(t, c, school, district) == LeafOf(t, c, RemoveWhiteSpace(school), RemoveWhiteSpace(district));
  }

  lemma PathIgnoresWhiteSpace(t: FileType, rootPath: string, c: Criteria, charterSchoolName: string)
    ensures GetReportPath(t, rootPath, c, charterSchoolName)
      == GetReportPath(t, rootPath, c, RemoveWhiteSpace(charterSchoolName))
  {
    RemoveWhiteSpaceIdempotent(charterSchoolName);
  }

  /** Names that differ only in white space give the same file. */
  lemma FileNameIgnoresWhiteSpace(t: FileType, rootPath: string, c: Criteria, charterSchoolName: string,
                                  schoolDistrictName: string)
    ensures GetReportFileName(t, rootPath, c, charterSchoolName, schoolDistrictName)
      == GetReportFileName(t, rootPath, c, RemoveWhiteSpace(charterSchoolName), RemoveWhiteSpace(schoolDistrictName))
  {
    LeafIgnoresWhiteSpace(t, c, charterSchoolName, schoolDistrictName);
    PathIgnoresWhiteSpace(t, rootPath, c, charterSchoolName);
  }
}
