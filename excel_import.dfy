/**
 * The student import: each file's first worksheet is read row by row, the first row naming the
 * columns, and every later row becomes a student that either updates the stored student with the
 * same state student number and charter school, or is added as a new one.
 */
module ExcelImport {
  import opened Wrappers
  import opened Text
  import opened Dates
  import opened Students

  // ---------------------------------------------------------------- worksheets

  /**
   * The first worksheet of a file, as its used range: the row and column of the top-left cell and
   * the text of every cell (`Value.ToString()`), row by row; a null cell is `None`. A worksheet
   * with no used cell has no range at all.
   */
  datatype Worksheet =
    | EmptySheet
    | UsedRange(startRow: int, startColumn: int, cells: seq<seq<Option<string>>>)

  /** Worksheet rows and columns are numbered from 1. */
  predicate OneBased(sheet: Worksheet)
  {
    sheet.UsedRange? ==> sheet.startRow >= 1 && sheet.startColumn >= 1
  }

  // ---------------------------------------------------------------- the header dispatch

  /** The headers (lower-cased) whose cell text is stored as is. */
  const TextHeaders: set<string> :=
    {"state student #", "aun", "first name", "last name", "street", "city", "state", "zip", "grade", "iep"}

  /** The headers (lower-cased) whose cell text is parsed as a date. */
  const DateHeaders: set<string> :=
    {"dob", "district entry date", "exit date", "current iep date", "prior iep date"}

  /** The text field a text header names. */
  function TextField(d: StudentData, key: string): Option<string>
    requires key in TextHeaders
  {
    match key
    case "state student #" => d.StateStudentNo
    case "aun" => d.Aun
    case "first name" => d.FirstName
    case "last name" => d.LastName
    case "street" => d.AddressStreet
    case "city" => d.AddressCity
    case "state" => d.AddressState
    case "zip" => d.AddressZip
    case "grade" => d.Grade
    case _ => d.IepFlag
  }

  /** The date field a date header names. */
  function DateField(d: StudentData, key: string): Option<DateTime>
    requires key in DateHeaders
  {
    match key
    case "dob" => d.Dob
    case "district entry date" => d.DistrictEntryDate
    case "exit date" => d.ExitDate
    case "current iep date" => d.CurrentIepDate
    case _ => d.PriorIepDate
  }

  /**
   * The record with the field `key` names cleared: two records whose clearings for `key` are
   * equal agree on every field but that one.
   */
  function Erase(d: StudentData, key: string): StudentData
  {
    match key
    case "state student #" => d.(StateStudentNo := None)
    case "aun" => d.(Aun := None)
    case "first name" => d.(FirstName := None)
    case "last name" => d.(LastName := None)
    case "street" => d.(AddressStreet := None)
    case "city" => d.(AddressCity := None)
    case "state" => d.(AddressState := None)
    case "zip" => d.(AddressZip := None)
    case "grade" => d.(Grade := None)
    case "iep" => d.(IepFlag := None)
    case "dob" => d.(Dob := None)
    case "district entry date" => d.(DistrictEntryDate := None)
    case "exit date" => d.(ExitDate := None)
    case "current iep date" => d.(CurrentIepDate := None)
    case "prior iep date" => d.(PriorIepDate := None)
    case _ => d
  }

  /**
   * One non-null cell of a data row, under the header `header`: the header is compared in lower
   * case; a text header stores the cell text in its field, a date header stores the parsed date
   * (a text that does not parse raises the parser's exception), and any other header is ignored.
   */
  function ApplyCell(s: StudentData, header: string, value: string, parseDate: string -> Result<DateTime>)
    : (r: Result<StudentData>)
    ensures r.Err? ==> ToLower(header) in DateHeaders && parseDate(value) == Err(r.fault)
    ensures r.Ok? ==> r.value.StudentUid == s.StudentUid && r.value.CharterSchoolUid == s.CharterSchoolUid
  {
    var text := Some(value);
    match ToLower(header)
    case "state student #" => Ok(s.(StateStudentNo := text))
    case "aun" => Ok(s.(Aun := text))
    case "first name" => Ok(s.(FirstName := text))
    case "last name" => Ok(s.(LastName := text))
    case "street" => Ok(s.(AddressStreet := text))
    case "city" => Ok(s.(AddressCity := text))
    case "state" => Ok(s.(AddressState := text))
    case "zip" => Ok(s.(AddressZip := text))
    case "dob" => (match parseDate(value) case Ok(d) => Ok(s.(Dob := Some(d))) case Err(e) => Err(e))
    case "grade" => Ok(s.(Grade := text))
    case "district entry date" =>
      (match parseDate(value) case Ok(d) => Ok(s.(DistrictEntryDate := Some(d))) case Err(e) => Err(e))
    case "exit date" => (match parseDate(value) case Ok(d) => Ok(s.(ExitDate := Some(d))) case Err(e) => Err(e))
    case "iep" => Ok(s.(IepFlag := text))
    case "current iep date" =>
      (match parseDate(value) case Ok(d) => Ok(s.(CurrentIepDate := Some(d))) case Err(e) => Err(e))
    case "prior iep date" =>
      (match parseDate(value) case Ok(d) => Ok(s.(PriorIepDate := Some(d))) case Err(e) => Err(e))
    case _ => Ok(s)
  }

  /** ApplyCell stores the cell in the one field its header names, and changes no other field. */
  lemma ApplyCellStores(s: StudentData, header: string, value: string, parseDate: string -> Result<DateTime>)
    ensures var r := ApplyCell(s, header, value, parseDate);
      && (ToLower(header) !in TextHeaders + DateHeaders ==> r == Ok(s))
      && (ToLower(header) in TextHeaders ==>
            r.Ok? && TextField(r.value, ToLower(header)) == Some(value)
            && Erase(r.value, ToLower(header)) == Erase(s, ToLower(header)))
      && (ToLower(header) in DateHeaders ==> (r.Ok? <==> parseDate(value).Ok?))
      && (ToLower(header) in DateHeaders && r.Err? ==> r.fault == parseDate(value).fault)
      && (ToLower(header) in DateHeaders && r.Ok? ==>
            DateField(r.value, ToLower(header)) == Some(parseDate(value).value)
            && Erase(r.value, ToLower(header)) == Erase(s, ToLower(header)))
  {
  }

  /** `new Student()` with its CharterSchoolUid set: every other field is null or 0. */
  function NewStudent(charterSchoolUid: int): StudentData
  {
    StudentData(0, None, None, None, None, None, None, None, None, None, None, None, None, None, None, None,
      charterSchoolUid, None)
  }

  /**
   * The cell in column `column` of a data row: a null cell changes nothing; otherwise the header
   * is `columns[column - 1]`, and a column with no such entry raises ArgumentOutOfRange.
   */
  function CellStep(columns: seq<string>, s: StudentData, column: int, cell: Option<string>,
                    parseDate: string -> Result<DateTime>): Result<StudentData>
  {
    if cell.None? then Ok(s)
    else if column - 1 < 0 || column - 1 >= |columns| then Err(ArgumentOutOfRange)
    else ApplyCell(s, columns[column - 1], cell.value, parseDate)
  }

  /** The student a data row's cells build, left to right, from `s`; `row[0]` is in `startColumn`. */
  function ReadCells(columns: seq<string>, s: StudentData, startColumn: int, row: seq<Option<string>>,
                     parseDate: string -> Result<DateTime>): (r: Result<StudentData>)
    ensures r.Ok? ==> r.value.StudentUid == s.StudentUid && r.value.CharterSchoolUid == s.CharterSchoolUid
    decreases |row|, 1
  {
    if row == [] then Ok(s) else ReadLastCell(columns, s, startColumn, row, parseDate)
  }

  /** A non-empty row: the cells before the last, then the last one. */
  function ReadLastCell(columns: seq<string>, s: StudentData, startColumn: int, row: seq<Option<string>>,
                        parseDate: string -> Result<DateTime>): (r: Result<StudentData>)
    requires row != []
    ensures r.Ok? ==> r.value.StudentUid == s.StudentUid && r.value.CharterSchoolUid == s.CharterSchoolUid
    decreases |row|, 0
  {
    match ReadCells(columns, s, startColumn, row[..|row| - 1], parseDate)
    case Err(e) => Err(e)
    case Ok(t) => CellStep(columns, t, startColumn + |row| - 1, row[|row| - 1], parseDate)
  }

  /** The texts of the header row's non-null cells, in order: a null header cell takes no place. */
  function HeaderCells(row: seq<Option<string>>): (h: seq<string>)
    ensures |h| <= |row|
  {
    if row == [] then []
    else HeaderCells(row[..|row| - 1]) + (if row[|row| - 1].Some? then [row[|row| - 1].value] else [])
  }

  /** The column names of a worksheet: its row 1, when the used range starts there, else none. */
  function Columns(sheet: Worksheet): seq<string>
    requires sheet.UsedRange?
  {
    if sheet.startRow == 1 && |sheet.cells| > 0 then HeaderCells(sheet.cells[0]) else []
  }

  // ---------------------------------------------------------------- the upsert

  /** The stored students and the students added so far. */
  datatype ImportState = ImportState(stored: seq<StudentData>, added: seq<StudentData>)

  predicate SameKey(a: StudentData, b: StudentData)
  {
    a.StateStudentNo == b.StateStudentNo && a.CharterSchoolUid == b.CharterSchoolUid
  }

  /**
   * `FirstOrDefault` over the stored students: the first with the same state student number
   * (null matching null) and charter school as `d`, or -1 when there is none.
   */
  function IndexOfKey(stored: seq<StudentData>, d: StudentData): (k: int)
    ensures -1 <= k < |stored|
    ensures k >= 0 ==> SameKey(stored[k], d) && forall m :: 0 <= m < k ==> !SameKey(stored[m], d)
    ensures k < 0 ==> forall m :: 0 <= m < |stored| ==> !SameKey(stored[m], d)
  {
    if stored == [] then -1
    else
      var k := IndexOfKey(stored[..|stored| - 1], d);
      if k >= 0 then k else if SameKey(stored[|stored| - 1], d) then |stored| - 1 else -1
  }

  /**
   * A data row's student: copied into the matching stored student, or added. The lookup sees
   * only stored students, never the ones added earlier in the same import.
   */
  function Upserted(st: ImportState, d: StudentData): (r: ImportState)
    ensures |r.stored| == |st.stored|
    ensures r.added == st.added || r.added == st.added + [d]
  {
    var k := IndexOfKey(st.stored, d);
    if k < 0 then ImportState(st.stored, st.added + [d])
    else ImportState(st.stored[k := CopiedFrom(st.stored[k], d)], st.added)
  }

  /**
   * The first `n` rows of a worksheet: row 1 only names the columns, every other row is read
   * and, when it is below row 1, upserted; the first exception ends the import.
   */
  function SheetRows(st: ImportState, sheet: Worksheet, n: nat, charterSchoolUid: int,
                     parseDate: string -> Result<DateTime>): Result<ImportState>
    requires sheet.UsedRange? && n <= |sheet.cells|
    decreases n, 1
  {
    if n == 0 then Ok(st) else SheetRow(st, sheet, n, charterSchoolUid, parseDate)
  }

  /** Row `n` of the used range (worksheet row `startRow + n - 1`), after the rows above it. */
  function SheetRow(st: ImportState, sheet: Worksheet, n: nat, charterSchoolUid: int,
                    parseDate: string -> Result<DateTime>): Result<ImportState>
    requires sheet.UsedRange? && 0 < n <= |sheet.cells|
    decreases n, 0
  {
    match SheetRows(st, sheet, n - 1, charterSchoolUid, parseDate)
    case Err(e) => Err(e)
    case Ok(s) =>
      var i := sheet.startRow + n - 1;
      if i == 1 then Ok(s)
      else
        match ReadCells(Columns(sheet), NewStudent(charterSchoolUid), sheet.startColumn, sheet.cells[n - 1], parseDate)
        case Err(e) => Err(e)
        case Ok(d) => if i > 1 then Ok(Upserted(s, d)) else Ok(s)
  }

  /** One file: a worksheet without a used range fails on its null Dimension. */
  function ImportFile(st: ImportState, sheet: Worksheet, charterSchoolUid: int,
                      parseDate: string -> Result<DateTime>): Result<ImportState>
  {
    match sheet
    case EmptySheet => Err(NullReference)
    case UsedRange(_, _, cells) => SheetRows(st, sheet, |cells|, charterSchoolUid, parseDate)
  }

  /** The files, in order. */
  function ImportFiles(st: ImportState, files: seq<Worksheet>, charterSchoolUid: int,
                       parseDate: string -> Result<DateTime>): Result<ImportState>
  {
    if files == [] then Ok(st)
    else
      match ImportFiles(st, files[..|files| - 1], charterSchoolUid, parseDate)
      case Err(e) => Err(e)
      case Ok(s) => ImportFile(s, files[|files| - 1], charterSchoolUid, parseDate)
  }

  // ---------------------------------------------------------------- the database context

  /** The Students set of the database context: the tracked stored students and the pending adds. */
  class StudentSet {
    var stored: seq<Student>
    var added: seq<StudentData>

    /** Each stored row is tracked by its own object. */
    predicate Valid()
      reads this
    {
      forall a, b :: 0 <= a < b < |stored| ==> stored[a] != stored[b]
    }

    /** The stored students' current fields. */
    function StoredData(): (r: seq<StudentData>)
      reads this, stored
      ensures |r| == |stored|
    {
      seq(|stored|, k requires 0 <= k < |stored| reads this, stored => stored[k].Data())
    }

    function State(): ImportState
      reads this, stored
    {
      ImportState(StoredData(), added)
    }

    /** The `if (i > 1)` block of the import: find the stored student, then copy into it or add. */
    method Upsert(d: StudentData)
      requires Valid()
      modifies this, stored
      ensures stored == old(stored) && Valid()
      ensures State() == Upserted(old(State()), d)
    {
      var k := IndexOfKey(StoredData(), d);
      if k < 0 {
        added := added + [d];
      } else {
        ghost var before := StoredData();
        var student := new Student.FromData(d);
        stored[k].CopyPropertiesFrom(student);
        assert forall m :: 0 <= m < |stored| && m != k ==> stored[m] != stored[k];
        assert StoredData() == before[k := CopiedFrom(before[k], d)];
      }
    }
  }

  // ---------------------------------------------------------------- the import

  /** The cells of row `i`: on row 1 they extend the column names, on any other row they build a student. */
  method ReadRow(i: int, row: seq<Option<string>>, startColumn: int, columns: seq<string>, charterSchoolUid: int,
                 parseDate: string -> Result<DateTime>)
    returns (newColumns: seq<string>, student: Result<StudentData>)
    ensures i == 1 ==> newColumns == columns + HeaderCells(row) && student == Ok(NewStudent(charterSchoolUid))
    ensures i != 1 ==> newColumns == columns
    ensures i != 1 ==> student == ReadCells(columns, NewStudent(charterSchoolUid), startColumn, row, parseDate)
  {
    var s := NewStudent(charterSchoolUid);
    newColumns := columns;
    var c := 0;
    while c < |row|
      invariant 0 <= c <= |row|
      invariant i == 1 ==> newColumns == columns + HeaderCells(row[..c]) && s == NewStudent(charterSchoolUid)
      invariant i != 1 ==> newColumns == columns
      invariant i != 1 ==> ReadCells(columns, NewStudent(charterSchoolUid), startColumn, row[..c], parseDate) == Ok(s)
    {
      assert row[..c + 1][..c] == row[..c];
      var j := startColumn + c;
      if row[c].Some? {
        if i == 1 {
          newColumns := newColumns + [row[c].value];
        } else {
          var next := CellStep(columns, s, j, row[c], parseDate);
          if next.Err? {
            ReadCellsStaysErr(columns, NewStudent(charterSchoolUid), startColumn, row, c + 1, parseDate);
            return newColumns, Err(next.fault);
          }
          s := next.value;
        }
      }
      c := c + 1;
    }
    assert row[..c] == row;
    student := Ok(s);
  }

  /**
   * Reads every file's first worksheet into `context`: stored students with a row's key take the
   * row's fields, other rows are added, and the list returned is the empty list the method
   * starts with. An exception leaves the changes unsaved.
   */
  method ImportStudents(context: StudentSet, files: seq<Worksheet>, charterSchoolUid: int,
                        parseDate: string -> Result<DateTime>)
    returns (r: Result<seq<StudentData>>)
    requires context.Valid()
    requires forall f :: 0 <= f < |files| ==> OneBased(files[f])
    modifies context, context.stored
    ensures context.stored == old(context.stored)
    ensures var spec := ImportFiles(old(context.State()), files, charterSchoolUid, parseDate);
      && (r.Ok? <==> spec.Ok?)
      && (r.Err? ==> r.fault == spec.fault)
      && (r.Ok? ==> r.value == [] && context.State() == spec.value)
  {
    var students: seq<StudentData> := [];
    ghost var st0 := context.State();
    var f := 0;
    while f < |files|
      invariant 0 <= f <= |files|
      invariant context.stored == old(context.stored) && context.Valid()
      invariant ImportFiles(st0, files[..f], charterSchoolUid, parseDate) == Ok(context.State())
    {
      assert files[..f + 1][..f] == files[..f];
      var fault := ImportWorksheet(context, files[f], charterSchoolUid, parseDate);
      if fault.Some? {
        ImportFilesStaysErr(st0, files, f + 1, charterSchoolUid, parseDate);
        return Err(fault.value);
      }
      f := f + 1;
    }
    assert files[..f] == files;
    return Ok(students);
  }

  /** The body of the file loop of ImportStudents: one worksheet, with its own column names. */
  method ImportWorksheet(context: StudentSet, sheet: Worksheet, charterSchoolUid: int,
                         parseDate: string -> Result<DateTime>)
    returns (fault: Option<Fault>)
    requires context.Valid() && OneBased(sheet)
    modifies context, context.stored
    ensures context.stored == old(context.stored) && context.Valid()
    ensures var spec := ImportFile(old(context.State()), sheet, charterSchoolUid, parseDate);
      && (fault.None? <==> spec.Ok?)
      && (fault.Some? ==> fault.value == spec.fault)
      && (fault.None? ==> context.State() == spec.value)
  {
    if sheet.EmptySheet? {
      return Some(NullReference);
    }
    fault := ImportRows(context, sheet, charterSchoolUid, parseDate);
  }

  /** The row loop of a worksheet with a used range, from its top row down. */
  method ImportRows(context: StudentSet, sheet: Worksheet, charterSchoolUid: int,
                    parseDate: string -> Result<DateTime>)
    returns (fault: Option<Fault>)
    requires context.Valid() && sheet.UsedRange? && OneBased(sheet)
    modifies context, context.stored
    ensures context.stored == old(context.stored) && context.Valid()
    ensures var spec := SheetRows(old(context.State()), sheet, |sheet.cells|, charterSchoolUid, parseDate);
      && (fault.None? ==> spec == Ok(context.State()))
      && (fault.Some? ==> spec == Err(fault.value))
  {
    var columns: seq<string> := [];
    ghost var st := context.State();
    var i := sheet.startRow;
    ghost var n := 0;
    while i <= sheet.startRow + |sheet.cells| - 1
      invariant n == i - sheet.startRow && 0 <= n <= |sheet.cells|
      invariant context.stored == old(context.stored) && context.Valid()
      invariant columns == if n == 0 then [] else Columns(sheet)
      invariant SheetRows(st, sheet, n, charterSchoolUid, parseDate) == Ok(context.State())
    {
      columns, fault := ImportRow(context, sheet, i, columns, charterSchoolUid, parseDate, st, n);
      if fault.Some? {
        return;
      }
      i := i + 1;
      n := n + 1;
    }
    return None;
  }

  /**
   * Row `i` of a worksheet, the `n`-th of its used range: row 1 gives the column names, a later
   * row's student is upserted. A fault ends the whole worksheet with that fault.
   */
  method ImportRow(context: StudentSet, sheet: Worksheet, i: int, columns: seq<string>, charterSchoolUid: int,
                   parseDate: string -> Result<DateTime>, ghost st: ImportState, ghost n: nat)
    returns (newColumns: seq<string>, fault: Option<Fault>)
    requires sheet.UsedRange? && OneBased(sheet) && n < |sheet.cells| && i == sheet.startRow + n
    requires context.Valid() && columns == (if n == 0 then [] else Columns(sheet))
    requires SheetRows(st, sheet, n, charterSchoolUid, parseDate) == Ok(context.State())
    modifies context, context.stored
    ensures context.stored == old(context.stored) && context.Valid()
    ensures fault.Some? ==> SheetRows(st, sheet, |sheet.cells|, charterSchoolUid, parseDate) == Err(fault.value)
    ensures fault.None? ==>
      newColumns == Columns(sheet) && SheetRows(st, sheet, n + 1, charterSchoolUid, parseDate) == Ok(context.State())
  {
    ghost var before := context.State();
    assert i != 1 ==> columns == Columns(sheet);
    var student;
    newColumns, student := ReadRow(i, sheet.cells[i - sheet.startRow], sheet.startColumn, columns,
      charterSchoolUid, parseDate);
    if student.Err? {
      SheetRowsStaysErr(st, sheet, n + 1, charterSchoolUid, parseDate);
      return newColumns, Some(student.fault);
    }
    SheetRowsStep(st, sheet, n, before, student.value, charterSchoolUid, parseDate);
    if i > 1 {
      context.Upsert(student.value);
    }
    return newColumns, None;
  }

  // ---------------------------------------------------------------- error propagation

  /** One more row of SheetRows, once the row's student is known. */
  lemma SheetRowsStep(st: ImportState, sheet: Worksheet, n: nat, s: ImportState, d: StudentData, charterSchoolUid: int,
                      parseDate: string -> Result<DateTime>)
    requires sheet.UsedRange? && n < |sheet.cells|
    requires SheetRows(st, sheet, n, charterSchoolUid, parseDate) == Ok(s)
    requires sheet.startRow + n != 1 ==>
      ReadCells(Columns(sheet), NewStudent(charterSchoolUid), sheet.startColumn, sheet.cells[n], parseDate) == Ok(d)
    ensures SheetRows(st, sheet, n + 1, charterSchoolUid, parseDate)
      == Ok(if sheet.startRow + n > 1 then Upserted(s, d) else s)
  {
  }

  lemma {:induction false} ReadCellsStaysErr(columns: seq<string>, s: StudentData, startColumn: int,
                                             row: seq<Option<string>>, n: nat, parseDate: string -> Result<DateTime>)
    requires n <= |row| && ReadCells(columns, s, startColumn, row[..n], parseDate).Err?
    ensures ReadCells(columns, s, startColumn, row, parseDate) == ReadCells(columns, s, startColumn, row[..n], parseDate)
    decreases |row| - n
  {
    if n < |row| {
      assert row[..n + 1][..n] == row[..n];
      ReadCellsStaysErr(columns, s, startColumn, row, n + 1, parseDate);
    } else {
      assert row[..n] == row;
    }
  }

  lemma {:induction false} SheetRowsStaysErr(st: ImportState, sheet: Worksheet, n: nat, charterSchoolUid: int,
                                             parseDate: string -> Result<DateTime>)
    requires sheet.UsedRange? && n <= |sheet.cells| && SheetRows(st, sheet, n, charterSchoolUid, parseDate).Err?
    ensures SheetRows(st, sheet, |sheet.cells|, charterSchoolUid, parseDate)
      == SheetRows(st, sheet, n, charterSchoolUid, parseDate)
    decreases |sheet.cells| - n
  {
    if n < |sheet.cells| {
      SheetRowsStaysErr(st, sheet, n + 1, charterSchoolUid, parseDate);
    }
  }

  lemma {:induction false} ImportFilesStaysErr(st: ImportState, files: seq<Worksheet>, n: nat, charterSchoolUid: int,
                                               parseDate: string -> Result<DateTime>)
    requires n <= |files| && ImportFiles(st, files[..n], charterSchoolUid, parseDate).Err?
    ensures ImportFiles(st, files, charterSchoolUid, parseDate) == ImportFiles(st, files[..n], charterSchoolUid, parseDate)
    decreases |files| - n
  {
    if n < |files| {
      assert files[..n + 1][..n] == files[..n];
      ImportFilesStaysErr(st, files, n + 1, charterSchoolUid, parseDate);
    } else {
      assert files[..n] == files;
    }
  }

  // ---------------------------------------------------------------- header matching

  /** A column whose header exists and is none of the fifteen known ones. */
  predicate UnknownColumn(columns: seq<string>, column: int)
  {
    0 <= column - 1 < |columns| && ToLower(columns[column - 1]) !in TextHeaders + DateHeaders
  }

  /** The row with the cells under unknown headers made null. */
  function Masked(columns: seq<string>, startColumn: int, row: seq<Option<string>>): (m: seq<Option<string>>)
    ensures |m| == |row|
  {
    if row == [] then []
    else
      Masked(columns, startColumn, row[..|row| - 1])
        + [if UnknownColumn(columns, startColumn + |row| - 1) then None else row[|row| - 1]]
  }

  /** Cells under unknown headers are ignored: blanking them builds the same student. */
  lemma {:induction false} ReadCellsIgnoresUnknown(columns: seq<string>, s: StudentData, startColumn: int,
                                                   row: seq<Option<string>>, parseDate: string -> Result<DateTime>)
    ensures ReadCells(columns, s, startColumn, Masked(columns, startColumn, row), parseDate)
      == ReadCells(columns, s, startColumn, row, parseDate)
  {
    if row != [] {
      var m := Masked(columns, startColumn, row);
      var column := startColumn + |row| - 1;
      assert m == Masked(columns, startColumn, row[..|row| - 1])
        + [if UnknownColumn(columns, column) then None else row[|row| - 1]];
      assert m[..|m| - 1] == Masked(columns, startColumn, row[..|row| - 1]);
      ReadCellsIgnoresUnknown(columns, s, startColumn, row[..|row| - 1], parseDate);
      var prefix := ReadCells(columns, s, startColumn, row[..|row| - 1], parseDate);
      if prefix.Ok? {
        CellStepIgnoresUnknown(columns, prefix.value, column, row[|row| - 1], parseDate);
      }
    }
  }

  /** One cell under an unknown header changes nothing, whether or not it is blanked. */
  lemma CellStepIgnoresUnknown(columns: seq<string>, s: StudentData, column: int, cell: Option<string>,
                               parseDate: string -> Result<DateTime>)
    ensures CellStep(columns, s, column, if UnknownColumn(columns, column) then None else cell, parseDate)
      == CellStep(columns, s, column, cell, parseDate)
  {
    if cell.Some? && 0 <= column - 1 < |columns| {
      ApplyCellStores(s, columns[column - 1], cell.value, parseDate);
    }
  }

  lemma LowerCharIdempotent(c: char)
    ensures LowerChar(LowerChar(c)) == LowerChar(c)
  {
  }

  /** Lower-casing twice is lower-casing once. */
  lemma ToLowerIdempotent(h: string)
    ensures ToLower(ToLower(h)) == ToLower(h)
  {
    forall i | 0 <= i < |h|
      ensures ToLower(ToLower(h))[i] == ToLower(h)[i]
    {
      LowerCharIdempotent(h[i]);
    }
  }

  /** The column names, lower-cased. */
  function LowerAll(columns: seq<string>): (l: seq<string>)
    ensures |l| == |columns| && forall k :: 0 <= k < |columns| ==> l[k] == ToLower(columns[k])
  {
    seq(|columns|, k requires 0 <= k < |columns| => ToLower(columns[k]))
  }

  /** Headers are matched whatever their case: lower-casing every column name builds the same student. */
  lemma {:induction false} ReadCellsIgnoresCase(columns: seq<string>, s: StudentData, startColumn: int,
                                                row: seq<Option<string>>, parseDate: string -> Result<DateTime>)
    ensures ReadCells(LowerAll(columns), s, startColumn, row, parseDate) == ReadCells(columns, s, startColumn, row, parseDate)
  {
    if row != [] {
      ReadCellsIgnoresCase(columns, s, startColumn, row[..|row| - 1], parseDate);
      var prefix := ReadCells(columns, s, startColumn, row[..|row| - 1], parseDate);
      if prefix.Ok? {
        CellStepIgnoresCase(columns, prefix.value, startColumn + |row| - 1, row[|row| - 1], parseDate);
      }
    }
  }

  /** One cell reads the same under a lower-cased header. */
  lemma CellStepIgnoresCase(columns: seq<string>, s: StudentData, column: int, cell: Option<string>,
                            parseDate: string -> Result<DateTime>)
    ensures CellStep(LowerAll(columns), s, column, cell, parseDate) == CellStep(columns, s, column, cell, parseDate)
  {
    if cell.Some? && 0 <= column - 1 < |columns| {
      ToLowerIdempotent(columns[column - 1]);
    }
  }

  /**
   * A null header cell takes no place in the column names, so the headers after it shift left:
   * under the header row "First Name", (null), "Last Name", a value in the second column is read
   * as the last name and a value in the third column has no header at all.
   */
  lemma BlankHeaderShiftsColumns(s: StudentData, parseDate: string -> Result<DateTime>)
    ensures HeaderCells([Some("First Name"), None, Some("Last Name")]) == ["First Name", "Last Name"]
    ensures ReadCells(["First Name", "Last Name"], s, 1, [None, Some("Smith"), None], parseDate)
      == Ok(s.(LastName := Some("Smith")))
    ensures ReadCells(["First Name", "Last Name"], s, 1, [None, None, Some("Smith")], parseDate)
      == Err(ArgumentOutOfRange)
  {
    var row: seq<Option<string>> := [Some("First Name"), None, Some("Last Name")];
    assert row[..2][..1] == [Some("First Name")];
    assert ToLower("Last Name") == "last name";
    var a: seq<Option<string>> := [None, Some("Smith"), None];
    var columns := ["First Name", "Last Name"];
    assert a[..2][..1] == a[..1] == [None] && a[..1][..0] == [];
    assert ReadLastCell(columns, s, 1, a[..1], parseDate) == Ok(s);
    assert ApplyCell(s, "Last Name", "Smith", parseDate) == Ok(s.(LastName := Some("Smith")));
    assert ReadLastCell(columns, s, 1, a[..2], parseDate) == Ok(s.(LastName := Some("Smith")));
    assert ReadLastCell(columns, s, 1, a, parseDate) == Ok(s.(LastName := Some("Smith")));
    var b: seq<Option<string>> := [None, None, Some("Smith")];
    assert b[..2][..1] == b[..1] == [None] && b[..1][..0] == [];
    assert ReadLastCell(columns, s, 1, b[..1], parseDate) == Ok(s);
    assert ReadLastCell(columns, s, 1, b[..2], parseDate) == Ok(s);
    assert ReadLastCell(columns, s, 1, b, parseDate) == Err(ArgumentOutOfRange);
  }

  // ---------------------------------------------------------------- what an import keeps

  /**
   * `after` follows from `before` by importing: the same stored students, each with its StudentUid,
   * StateStudentNo, SpedFlag and CharterSchoolUid, and the earlier adds still first in line.
   */
  predicate Extends(before: ImportState, after: ImportState)
  {
    && |after.stored| == |before.stored|
    && (forall k :: 0 <= k < |before.stored| ==>
          && after.stored[k].StudentUid == before.stored[k].StudentUid
          && SameKey(after.stored[k], before.stored[k])
          && after.stored[k].SpedFlag == before.stored[k].SpedFlag)
    && before.added <= after.added
  }

  lemma ExtendsTransitive(a: ImportState, b: ImportState, c: ImportState)
    requires Extends(a, b) && Extends(b, c)
    ensures Extends(a, c)
  {
  }

  /**
   * A row either lands in the stored student with its key, which then holds the row's fields, or
   * is added; it is added exactly when no stored student has its key, even when an earlier row of
   * the same import was added with that key.
   */
  lemma UpsertedHoldsRow(st: ImportState, d: StudentData)
    ensures Extends(st, Upserted(st, d))
    ensures var after := Upserted(st, d);
      (after.added == st.added + [d]) <==> forall k :: 0 <= k < |st.stored| ==> !SameKey(st.stored[k], d)
    ensures var after := Upserted(st, d);
      after.added == st.added ==>
        exists k :: 0 <= k < |after.stored| && SameKey(after.stored[k], d) && CopiedFrom(after.stored[k], d) == after.stored[k]
  {
    var k := IndexOfKey(st.stored, d);
    if k >= 0 {
      var after := Upserted(st, d);
      assert |after.added| == |st.added|;
      CopiedFromKeepsThreeFields(st.stored[k], d);
      assert SameKey(after.stored[k], d);
    }
  }

  /** Two rows with a new key are both added: the lookup never sees rows added by the same import. */
  lemma DuplicateNewRowsBothAdded(st: ImportState, d1: StudentData, d2: StudentData)
    requires SameKey(d1, d2)
    requires forall k :: 0 <= k < |st.stored| ==> !SameKey(st.stored[k], d1)
    ensures Upserted(Upserted(st, d1), d2).added == st.added + [d1, d2]
  {
  }

  lemma {:induction false} SheetRowsExtends(st: ImportState, sheet: Worksheet, n: nat, charterSchoolUid: int,
                                            parseDate: string -> Result<DateTime>)
    requires sheet.UsedRange? && n <= |sheet.cells|
    ensures SheetRows(st, sheet, n, charterSchoolUid, parseDate).Ok? ==>
      Extends(st, SheetRows(st, sheet, n, charterSchoolUid, parseDate).value)
  {
    if n > 0 {
      SheetRowsExtends(st, sheet, n - 1, charterSchoolUid, parseDate);
      var prev := SheetRows(st, sheet, n - 1, charterSchoolUid, parseDate);
      if prev.Ok? && sheet.startRow + n - 1 > 1 {
        var d := ReadCells(Columns(sheet), NewStudent(charterSchoolUid), sheet.startColumn, sheet.cells[n - 1], parseDate);
        if d.Ok? {
          UpsertedHoldsRow(prev.value, d.value);
          ExtendsTransitive(st, prev.value, Upserted(prev.value, d.value));
        }
      }
    }
  }

  /**
   * A successful import changes no stored student's StudentUid, StateStudentNo, SpedFlag or
   * CharterSchoolUid, so looking students up by their current fields finds what the database
   * finds by their saved ones.
   */
  lemma {:induction false} ImportFilesExtends(st: ImportState, files: seq<Worksheet>, charterSchoolUid: int,
                                             parseDate: string -> Result<DateTime>)
    ensures ImportFiles(st, files, charterSchoolUid, parseDate).Ok? ==>
      Extends(st, ImportFiles(st, files, charterSchoolUid, parseDate).value)
  {
    if files != [] {
      var init := files[..|files| - 1];
      ImportFilesExtends(st, init, charterSchoolUid, parseDate);
      var prev := ImportFiles(st, init, charterSchoolUid, parseDate);
      var sheet := files[|files| - 1];
      if prev.Ok? && sheet.UsedRange? {
        SheetRowsExtends(prev.value, sheet, |sheet.cells|, charterSchoolUid, parseDate);
        var next := SheetRows(prev.value, sheet, |sheet.cells|, charterSchoolUid, parseDate);
        if next.Ok? {
          ExtendsTransitive(st, prev.value, next.value);
        }
      }
    }
  }
}
