/**
 * ExcelServices' own copies of the report-path helpers. They know four report kinds only and,
 * unlike FileSystemServices, never add a PDE folder: a month-level report goes to
 * root/reports/<school>/<year>/<month> whoever it is sent to.
 */
module ExcelReportFiles {
  import opened Wrappers
  import opened Text
  import FS = FileSystemServices

  /** The report kinds ExcelServices saves. */
  datatype ReportType = Invoice | Student | Unipay | YearEnd

  /** The FileSystemServices kind with the same name. */
  function AsFileType(t: ReportType): (r: FS.FileType)
    ensures r != FS.Unlisted
    ensures FS.IsYearLevel(r) <==> t == YearEnd
  {
    match t
    case Invoice => FS.Invoice
    case Student => FS.Student
    case Unipay => FS.Unipay
    case YearEnd => FS.YearEnd
  }

  /**
   * root/reports/<school>/<year> for the year-end reconciliation and
   * root/reports/<school>/<year>/<month> for every other kind, with no PDE folder.
   */
  function GetReportPath(t: ReportType, rootPath: string, c: FS.Criteria, charterSchoolName: string): (r: string)
    ensures |r| > 0
    ensures t == YearEnd && |c.Year| > 0 ==> FS.EndsWith(r, c.Year)
    ensures t != YearEnd && |c.Month| > 0 ==> FS.EndsWith(r, c.Month)
  {
    var school := FS.PathCombine(FS.PathCombine(rootPath, "reports"), RemoveWhiteSpace(charterSchoolName));
    var year := FS.PathCombine(school, c.Year);
    FS.EndsWithPart(school, c.Year);
    FS.EndsWithPart(year, c.Month);
    if t == YearEnd then year else FS.PathCombine(year, c.Month)
  }

  /** The file name of a report kind, from the names with their white space already removed. */
  function Leaf(t: ReportType, c: FS.Criteria, school: string, district: string): (r: string)
    ensures FS.EndsWith(r, ".xlsx")
  {
    var stem := match t
      case Invoice => c.Month + c.Year + district
      case Student => c.Month + c.Year + district + "Student"
      case Unipay => school + "Unipay"
      case YearEnd => c.Year + district + "YearEnd";
    assert (stem + ".xlsx")[|stem|..] == ".xlsx";
    stem + ".xlsx"
  }

  /**
   * The file of a report: its directory joined with the month, year and district for invoices
   * and student lists, the school for the Unipay request and the year and district for the
   * year-end reconciliation. Every kind has a name, so no call fails.
   */
  function GetReportFileName(t: ReportType, rootPath: string, c: FS.Criteria, charterSchoolName: string,
                             schoolDistrictName: string): (r: string)
    ensures FS.EndsWith(r, ".xlsx")
    ensures FS.EndsWith(r, Leaf(t, c, RemoveWhiteSpace(charterSchoolName), RemoveWhiteSpace(schoolDistrictName)))
  {
    var leaf := Leaf(t, c, RemoveWhiteSpace(charterSchoolName), RemoveWhiteSpace(schoolDistrictName));
    var path := GetReportPath(t, rootPath, c, charterSchoolName);
    FS.PathCombineEndsWith(path, leaf);
    FS.EndsWithTransitive(FS.PathCombine(path, leaf), leaf, ".xlsx");
    FS.PathCombine(path, leaf)
  }

  // ---------------------------------------------------------------- against FileSystemServices

  /** Path.Combine of a non-empty path and a non-empty relative part is longer than the path. */
  lemma PathCombineGrows(a: string, b: string)
    requires |a| > 0 && |b| > 0 && !FS.IsRooted(b)
    ensures |FS.PathCombine(a, b)| > |a|
  {
  }

  /**
   * The two GetReportPath agree on the kinds they share exactly when the report is a year-end
   * reconciliation or is not sent to PDE; otherwise FileSystemServices puts it one PDE folder
   * further down.
   */
  lemma {:induction false} ReportPathMatchesUnlessPde(t: ReportType, rootPath: string, c: FS.Criteria, charterSchoolName: string)
    ensures GetReportPath(t, rootPath, c, charterSchoolName) == FS.GetReportPath(AsFileType(t), rootPath, c, charterSchoolName)
      <==> t == YearEnd || c.SendTo != Some("PDE")
    ensures t != YearEnd && c.SendTo == Some("PDE") ==>
      FS.GetReportPath(AsFileType(t), rootPath, c, charterSchoolName)
        == FS.PathCombine(GetReportPath(t, rootPath, c, charterSchoolName), "PDE")
  {
    var mine := GetReportPath(t, rootPath, c, charterSchoolName);
    if t != YearEnd && c.SendTo == Some("PDE") {
      FS.MonthPathExtendsYearPath(AsFileType(t), rootPath, c, charterSchoolName);
      FS.MonthPathExtendsYearPath(FS.Invoice, rootPath, c, charterSchoolName);
      PathCombineGrows(mine, "PDE");
    }
  }

  /** FileSystemServices names each of the four kinds as ExcelServices does. */
  lemma LeafMatches(t: ReportType, c: FS.Criteria, school: string, district: string)
    ensures FS.LeafOf(AsFileType(t), c, school, district) == Ok(Leaf(t, c, school, district))
  {
  }

  /**
   * Outside the PDE case the two GetReportFileName name the same file for the kinds they share;
   * FileSystemServices also takes the Unipay request into the PDE folder when it is sent to PDE.
   */
  lemma ReportFileNameMatchesUnlessPde(t: ReportType, rootPath: string, c: FS.Criteria, charterSchoolName: string,
                                       schoolDistrictName: string)
    requires t == YearEnd || c.SendTo != Some("PDE")
    ensures FS.GetReportFileName(AsFileType(t), rootPath, c, charterSchoolName, schoolDistrictName)
      == Ok(GetReportFileName(t, rootPath, c, charterSchoolName, schoolDistrictName))
  {
    ReportPathMatchesUnlessPde(t, rootPath, c, charterSchoolName);
    LeafMatches(t, c, RemoveWhiteSpace(charterSchoolName), RemoveWhiteSpace(schoolDistrictName));
  }

  /**
   * A month-level report sent to PDE: FileSystemServices names the same file one PDE folder
   * below the directory ExcelServices saves it in.
   */
  lemma ReportFileNameInPdeFolder(t: ReportType, rootPath: string, c: FS.Criteria, charterSchoolName: string,
                                  schoolDistrictName: string)
    requires t != YearEnd && c.SendTo == Some("PDE")
    ensures FS.GetReportFileName(AsFileType(t), rootPath, c, charterSchoolName, schoolDistrictName)
      == Ok(FS.PathCombine(FS.PathCombine(GetReportPath(t, rootPath, c, charterSchoolName), "PDE"),
                           Leaf(t, c, RemoveWhiteSpace(charterSchoolName), RemoveWhiteSpace(schoolDistrictName))))
  {
    ReportPathMatchesUnlessPde(t, rootPath, c, charterSchoolName);
    LeafMatches(t, c, RemoveWhiteSpace(charterSchoolName), RemoveWhiteSpace(schoolDistrictName));
  }
}
