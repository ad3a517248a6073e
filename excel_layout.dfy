/**
 * The cell and row arithmetic of ExcelServices: the invoice's month columns, the payment rows
 * and the rows extra payments are inserted at, and the placement of students on the student
 * sheet.
 */
module ExcelLayout {
  import opened Wrappers
  import opened Dates
  import opened Entities
  import opened Sheets
  import opened SchoolYear
  import opened Students

  // ---------------------------------------------------------------- invoice month cells

  /**
   * GetInvoiceMonthCell: the column of the month on the invoice, B for July through L for May,
   * and row 12 for non-special-education or 13 for special education. June and every other
   * number throw.
   */
  function GetInvoiceMonthCell(month: int, specialEducation: bool): (r: Result<string>)
    ensures r.Ok? <==> BillingIndex(month) >= 0
    ensures r.Ok? ==> r.value == [('B' as int + BillingIndex(month)) as char] + (if specialEducation then "13" else "12")
  {
    var row := if specialEducation then "13" else "12";
    match month
    case 7 => Ok("B" + row)
    case 8 => Ok("C" + row)
    case 9 => Ok("D" + row)
    case 10 => Ok("E" + row)
    case 11 => Ok("F" + row)
    case 12 => Ok("G" + row)
    case 1 => Ok("H" + row)
    case 2 => Ok("I" + row)
    case 3 => Ok("J" + row)
    case 4 => Ok("K" + row)
    case 5 => Ok("L" + row)
    case _ => Err(GeneralError("No cell for May on the Monthly Invoice Template"))
  }

  /** The months with a cell are exactly the invoice months. */
  lemma InvoiceMonthCellExists(month: int, specialEducation: bool)
    ensures GetInvoiceMonthCell(month, specialEducation).Ok? <==> month in InvoiceMonths
  {
    InvoiceMonthIndex(month);
  }

  /** No two month and sped combinations share a cell. */
  lemma InvoiceMonthCellsDistinct(m1: int, sped1: bool, m2: int, sped2: bool)
    requires GetInvoiceMonthCell(m1, sped1).Ok? && GetInvoiceMonthCell(m2, sped2).Ok?
    requires m1 != m2 || sped1 != sped2
    ensures GetInvoiceMonthCell(m1, sped1).value != GetInvoiceMonthCell(m2, sped2).value
  {
    var a, b := GetInvoiceMonthCell(m1, sped1).value, GetInvoiceMonthCell(m2, sped2).value;
    if m1 != m2 {
      assert BillingIndex(m1) != BillingIndex(m2);
      assert a[0] != b[0];
    } else {
      assert a[2] != b[2];
    }
  }

  // ---------------------------------------------------------------- payment rows

  /**
   * GetPaymentRow: July is startRow, each later month one row further, June startRow + 11. The
   * throw for any other month cannot happen, since a date's month is 1..12.
   */
  function GetPaymentRow(date: DateTime, startRow: int): (r: Result<int>)
    ensures r == Ok(startRow + (MonthOf(date) + 5) % 12)
  {
    PaymentRowOfMonth(MonthOf(date), startRow)
  }

  /** The switch inside GetPaymentRow, on the month number: every other number throws. */
  function PaymentRowOfMonth(m: int, startRow: int): (r: Result<int>)
    ensures r.Ok? <==> 1 <= m <= 12
    ensures 1 <= m <= 12 ==> r == Ok(startRow + (m + 5) % 12)
  {
    match m
    case 7 => Ok(startRow)
    case 8 => Ok(startRow + 1)
    case 9 => Ok(startRow + 2)
    case 10 => Ok(startRow + 3)
    case 11 => Ok(startRow + 4)
    case 12 => Ok(startRow + 5)
    case 1 => Ok(startRow + 6)
    case 2 => Ok(startRow + 7)
    case 3 => Ok(startRow + 8)
    case 4 => Ok(startRow + 9)
    case 5 => Ok(startRow + 10)
    case 6 => Ok(startRow + 11)
    case _ => Err(GeneralError("Invalid payment date"))
  }

  /** The month's offset from July in the school year: 0 for July, 11 for June. */
  function SchoolYearOffset(month: int): int { (month + 5) % 12 }

  /** How many payments have the same month as the payment before them. */
  function Repeats(months: seq<int>): nat
  {
    if |months| <= 1 then 0
    else Repeats(months[..|months| - 1]) + (if months[|months| - 1] == months[|months| - 2] then 1 else 0)
  }

  /**
   * Where payment k lands: its month's row, pushed down by every row inserted so far, including
   * its own when it repeats the previous payment's month.
   */
  function PaymentRowAt(months: seq<int>, startRow: int, k: int): int
    requires 0 <= k < |months|
  {
    startRow + SchoolYearOffset(months[k]) + Repeats(months[..k + 1])
  }

  predicate RepeatsPrevious(months: seq<int>, k: int)
    requires 0 <= k < |months|
  {
    k > 0 && months[k] == months[k - 1]
  }

  /** The last of the months, or 0 when there are none. */
  function Last(months: seq<int>): int
  {
    if months == [] then 0 else months[|months| - 1]
  }

  /** The month of each payment's date, in payment order. */
  function PaymentMonths(payments: seq<Payment>): (ms: seq<int>)
    ensures |ms| == |payments| && forall k :: 0 <= k < |ms| ==> 1 <= ms[k] <= 12
  {
    if |payments| == 0 then [] else PaymentMonths(payments[..|payments| - 1]) + [MonthOf(payments[|payments| - 1].Date)]
  }

  lemma {:induction false} PaymentMonthsAt(payments: seq<Payment>, k: int)
    requires 0 <= k < |payments|
    ensures PaymentMonths(payments)[k] == MonthOf(payments[k].Date)
  {
    if k < |payments| - 1 {
      PaymentMonthsAt(payments[..|payments| - 1], k);
    }
  }

  /** The two payment tables: the year-end reconciliation's and the invoice's. */
  datatype PaymentLayout = Recon | InvoicePayments

  function StartRow(layout: PaymentLayout): int
  {
    match layout
    case Recon => 16
    case InvoicePayments => 19
  }

  /**
   * The cells one payment writes at `row`: the check number when it is not empty (a null check
   * number throws on its ToString()), the date on the invoice, and the amount in the refund
   * column when negative (as its absolute value), else in the school's or the other payer's
   * column.
   */
  function PaymentCells(layout: PaymentLayout, p: Payment, row: int): (r: Result<seq<CellWrite>>)
    ensures r.Err? <==> p.CheckNo.None?
  {
    if p.CheckNo.None? then Err(NullReference)
    else
      var checkColumn, dateColumn := if layout == Recon then "D" else "E", "F";
      var refundColumn, schoolColumn, otherColumn :=
        if layout == Recon then "G" else "K", if layout == Recon then "E" else "G", if layout == Recon then "F" else "I";
      var check := if p.CheckNo.value != "" then [CellWrite(checkColumn, row, TextValue(p.CheckNo.value))] else [];
      var date := if layout == InvoicePayments then [CellWrite(dateColumn, row, DateValue(DateOf(p.Date)))] else [];
      var amount :=
        if p.Amount < 0.0 then CellWrite(refundColumn, row, NumberValue(-p.Amount))
        else if p.PaidBy == Some("School") then CellWrite(schoolColumn, row, NumberValue(p.Amount))
        else CellWrite(otherColumn, row, NumberValue(p.Amount));
      Ok(check + date + [amount])
  }

  /**
   * The writes of the first n payments, whose months are `months`, or the fault of the first
   * payment that throws.
   */
  function PaymentWrites(payments: seq<Payment>, months: seq<int>, layout: PaymentLayout, n: nat): Result<seq<CellWrite>>
    requires n <= |payments| == |months|
    decreases n, 1
  {
    if n == 0 then Ok([]) else PaymentWritesLast(payments, months, layout, n)
  }

  /** Payment `n - 1`'s writes after those of the payments before it. */
  function PaymentWritesLast(payments: seq<Payment>, months: seq<int>, layout: PaymentLayout, n: nat): Result<seq<CellWrite>>
    requires 0 < n <= |payments| == |months|
    decreases n, 0
  {
    var before := PaymentWrites(payments, months, layout, n - 1);
    if before.Err? then before
    else
      var cells := PaymentCells(layout, payments[n - 1], PaymentRowAt(months, StartRow(layout), n - 1));
      if cells.Err? then Err(cells.fault) else Ok(before.value + cells.value)
  }

  /** Once a payment throws, the later payments are never reached. */
  lemma {:induction false} PaymentWritesStaysErr(payments: seq<Payment>, months: seq<int>, layout: PaymentLayout, i: nat, n: nat)
    requires i <= n <= |payments| == |months| && PaymentWrites(payments, months, layout, i).Err?
    ensures PaymentWrites(payments, months, layout, n) == PaymentWrites(payments, months, layout, i)
    decreases n - i
  {
    if i < n {
      PaymentWritesStaysErr(payments, months, layout, i, n - 1);
    }
  }

  /** The rows inserted for the first n payments, in order. */
  function InsertedRows(months: seq<int>, startRow: int, n: nat): seq<int>
    requires n <= |months|
  {
    if n == 0 then []
    else InsertedRows(months, startRow, n - 1) + (if RepeatsPrevious(months, n - 1) then [PaymentRowAt(months, startRow, n - 1)] else [])
  }

  /**
   * PopulateReconPayments and PopulateInvoicePayments: each payment goes to its month's row
   * shifted by `rowIncrement`; a payment in the same month as the one before inserts a row
   * first. `currentMonth` ends as the last payment's month.
   */
  method PopulatePayments(payments: seq<Payment>, layout: PaymentLayout)
    returns (writes: Result<seq<CellWrite>>, inserted: seq<int>, currentMonth: int, rowIncrement: int)
    ensures writes == PaymentWrites(payments, PaymentMonths(payments), layout, |payments|)
    ensures writes.Ok? ==> inserted == InsertedRows(PaymentMonths(payments), StartRow(layout), |payments|)
    ensures writes.Ok? ==> rowIncrement == Repeats(PaymentMonths(payments))
    ensures writes.Ok? ==> currentMonth == Last(PaymentMonths(payments))
  {
    // payment.Date.Month for every payment, read up front
    var months := PaymentMonths(payments);
    var startRow := StartRow(layout);
    var acc: seq<CellWrite> := [];
    currentMonth, rowIncrement, inserted := 0, 0, [];
    var i := 0;
    writes := Ok([]);
    while i < |payments|
      invariant i <= |payments|
      invariant PaymentWrites(payments, months, layout, i) == Ok(acc)
      invariant inserted == InsertedRows(months, startRow, i)
      invariant rowIncrement == Repeats(months[..i])
      invariant currentMonth == (if i == 0 then 0 else months[i - 1])
    {
      var row;
      row, currentMonth, rowIncrement, inserted := PlacePayment(months, startRow, i, currentMonth, rowIncrement, inserted);
      var cells := PaymentCells(layout, payments[i], row);
      if cells.Err? {
        writes := Err(cells.fault);
        PaymentWritesStaysErr(payments, months, layout, i + 1, |payments|);
        return;
      }
      PaymentWritesStep(payments, months, layout, i, acc, row);
      acc := acc + cells.value;
      i := i + 1;
    }
    assert months[..i] == months;
    assert rowIncrement == Repeats(months);
    writes := Ok(acc);
  }

  /**
   * The body of the placement loop for one payment of month `months[i]`: the first payment takes
   * its month's row; one in the same month as the one before inserts a row and moves down one
   * more; any other takes its month's row shifted by the rows inserted so far.
   */
  method PlacePayment(months: seq<int>, startRow: int, i: nat, currentMonth: int, rowIncrement: int, inserted: seq<int>)
    returns (row: int, newMonth: int, newIncrement: int, newInserted: seq<int>)
    requires i < |months| && forall k :: 0 <= k < |months| ==> 1 <= months[k] <= 12
    requires currentMonth == (if i == 0 then 0 else months[i - 1])
    requires rowIncrement == Repeats(months[..i])
    requires inserted == InsertedRows(months, startRow, i)
    ensures row == PaymentRowAt(months, startRow, i)
    ensures newMonth == months[i] && newIncrement == Repeats(months[..i + 1])
    ensures newInserted == InsertedRows(months, startRow, i + 1)
  {
    var month := months[i];
    var baseRow := PaymentRowOfMonth(month, startRow);
    row := baseRow.value;
    RepeatsStep(months, i);
    InsertedRowsStep(months, startRow, i, inserted);
    newInserted := inserted;
    if currentMonth == 0 {
      newMonth, newIncrement := month, rowIncrement;
    } else if month == currentMonth {
      newMonth, newIncrement := currentMonth, rowIncrement + 1;
      row := row + newIncrement;
      newInserted := newInserted + [row];
    } else {
      newMonth, newIncrement := month, rowIncrement;
      row := row + rowIncrement;
    }
  }

  lemma PaymentWritesStep(payments: seq<Payment>, months: seq<int>, layout: PaymentLayout, i: nat, acc: seq<CellWrite>, row: int)
    requires i < |payments| == |months|
    requires PaymentWrites(payments, months, layout, i) == Ok(acc)
    requires row == PaymentRowAt(months, StartRow(layout), i) && PaymentCells(layout, payments[i], row).Ok?
    ensures PaymentWrites(payments, months, layout, i + 1) == Ok(acc + PaymentCells(layout, payments[i], row).value)
  {
  }

  lemma InsertedRowsStep(months: seq<int>, startRow: int, i: nat, inserted: seq<int>)
    requires i < |months| && inserted == InsertedRows(months, startRow, i)
    ensures InsertedRows(months, startRow, i + 1)
      == inserted + (if RepeatsPrevious(months, i) then [PaymentRowAt(months, startRow, i)] else [])
  {
  }

  /** A payment adds one to the count of repeats exactly when it repeats the previous month. */
  lemma RepeatsStep(months: seq<int>, i: nat)
    requires i < |months|
    ensures Repeats(months[..i + 1]) == Repeats(months[..i]) + (if RepeatsPrevious(months, i) then 1 else 0)
  {
    if i > 0 {
      assert months[..i + 1][..i] == months[..i];
    }
  }

  // ---------------------------------------------------------------- properties of the payment rows

  /** `rowIncrement` never decreases as payments are processed. */
  lemma {:induction false} RepeatsMonotone(months: seq<int>, i: nat, j: nat)
    requires i <= j <= |months|
    ensures Repeats(months[..i]) <= Repeats(months[..j])
    decreases j - i
  {
    if i < j {
      RepeatsMonotone(months, i, j - 1);
      assert months[..j][..j - 1] == months[..j - 1];
    }
  }

  /** One row is inserted per repeated month: the inserted rows number `rowIncrement`. */
  lemma {:induction false} InsertedRowsCount(months: seq<int>, startRow: int, n: nat)
    requires n <= |months|
    ensures |InsertedRows(months, startRow, n)| == Repeats(months[..n])
  {
    if n > 0 {
      InsertedRowsCount(months, startRow, n - 1);
      assert months[..n][..n - 1] == months[..n - 1];
    }
  }

  /**
   * When the payments come in school-year order (July first, June last), every payment gets a
   * row below the previous one, so none overwrites another.
   */
  lemma PaymentRowsIncrease(months: seq<int>, startRow: int, k: int)
    requires forall i :: 0 <= i < |months| ==> 1 <= months[i] <= 12
    requires 0 < k < |months|
    requires SchoolYearOffset(months[k - 1]) <= SchoolYearOffset(months[k])
    ensures PaymentRowAt(months, startRow, k - 1) < PaymentRowAt(months, startRow, k)
  {
    assert months[..k + 1][..k] == months[..k];
  }

  /**
   * Out of school-year order the rows can collide: August, July, August puts the third payment
   * on the first one's row.
   */
  lemma UnorderedPaymentsShareRow(startRow: int)
    ensures PaymentRowAt([8, 7, 8], startRow, 0) == PaymentRowAt([8, 7, 8], startRow, 2)
  {
    assert [8, 7, 8][..1] == [8];
    assert [8, 7, 8][..3][..2] == [8, 7];
    assert [8, 7][..1] == [8];
  }

  /** Each payment writes its amount exactly once, in one of the three amount columns of its row. */
  lemma PaymentAmountWrittenOnce(layout: PaymentLayout, p: Payment, row: int)
    requires p.CheckNo.Some?
    ensures var cells := PaymentCells(layout, p, row).value;
      |cells| >= 1 && cells[|cells| - 1].row == row
      && cells[|cells| - 1].value == NumberValue(if p.Amount < 0.0 then -p.Amount else p.Amount)
      && (p.Amount < 0.0 <==> cells[|cells| - 1].column == (if layout == Recon then "G" else "K"))
  {
  }

  // ---------------------------------------------------------------- the student sheet

  /** The first of the four rows of the student with this counter on the student sheet. */
  function StudentRow(counter: nat): (r: int)
    ensures r >= 12
    ensures counter % 8 == 0 ==> r == (counter / 8) * 46 + 12
  {
    (counter / 8) * 46 + 12 + (counter % 8) * 4
  }

  /** A student's four rows lie inside the 46-row block of its sheet, below the block's header. */
  lemma StudentRowsInBlock(counter: nat)
    ensures var s := counter / 8;
      s * 46 + 12 <= StudentRow(counter) && StudentRow(counter) + 3 <= s * 46 + 43
  {
  }

  /** A later student starts at least four rows below an earlier one: their rows never overlap. */
  lemma StudentRowsDisjoint(a: nat, b: nat)
    requires a < b
    ensures StudentRow(a) + 4 <= StudentRow(b)
  {
    if a / 8 == b / 8 {
      assert a % 8 < b % 8;
    } else {
      assert a / 8 < b / 8;
      assert (a / 8) * 46 + 46 <= (b / 8) * 46;
    }
  }

  /** The number of 46-row blocks n students need: one per eight students, rounded up. */
  function BlockCount(n: nat): nat
  {
    (n + 7) / 8
  }

  /** Student i opens a new block exactly when it is the first of a group of eight, as block i / 8. */
  lemma BlockCountStep(i: nat)
    ensures BlockCount(i + 1) == BlockCount(i) + (if i % 8 == 0 then 1 else 0)
    ensures i % 8 == 0 ==> BlockCount(i) == i / 8
  {
    var q, r := i / 8, i % 8;
    assert i == 8 * q + r;
    if r == 0 {
      assert (i + 7) / 8 == q;
      assert (i + 8) / 8 == q + 1;
    } else {
      assert (i + 7) / 8 == q + 1;
      assert (i + 8) / 8 == q + 1;
    }
  }

  /** The cells AddStudent writes for one student at the given counter. */
  function StudentCells(student: StudentData, counter: nat): (cells: seq<CellWrite>)
    ensures |cells| == 13
    ensures forall w :: w in cells ==> StudentRow(counter) <= w.row < StudentRow(counter) + 4
  {
    var row := StudentRow(counter);
    [ CellWrite("C", row + 1, TextOrNull(student.StateStudentNo)),
      CellWrite("D", row, TextValue(OrEmpty(student.FirstName) + " " + OrEmpty(student.LastName))),
      CellWrite("D", row + 1, TextOrNull(student.AddressStreet)),
      CellWrite("D", row + 3, TextValue(OrEmpty(student.AddressCity) + ", " + OrEmpty(student.AddressState))),
      CellWrite("E", row + 3, TextOrNull(student.AddressZip)),
      CellWrite("F", row, DateOrNull(student.Dob)),
      CellWrite("F", row + 2, TextOrNull(student.Grade)),
      CellWrite("G", row + 1, TextValue("")),
      CellWrite("H", row + 1, DateOrNull(student.DistrictEntryDate)),
      CellWrite("I", row + 1, DateOrNull(student.ExitDate)),
      CellWrite("J", row + 1, TextValue(if student.IepFlag == Some("Y") then "Yes" else "No")),
      CellWrite("K", row + 1, DateOrNull(student.CurrentIepDate)),
      CellWrite("K", row + 3, DateOrNull(student.PriorIepDate)) ]
  }

  /**
   * PopulateStudentSheet and AddStudent: student i is written at StudentRow(i), and a fresh
   * 46-row block is copied in (its number recorded) before every eighth student.
   */
  method PopulateStudentSheet(students: seq<StudentData>) returns (writes: seq<CellWrite>, copiedBlocks: seq<int>)
    ensures |copiedBlocks| == BlockCount(|students|)
    ensures forall s :: 0 <= s < |copiedBlocks| ==> copiedBlocks[s] == s
    ensures |writes| == 13 * |students|
    ensures forall w :: w in writes ==> exists i :: 0 <= i < |students| && w in StudentCells(students[i], i)
    ensures forall i, w :: 0 <= i < |students| && w in StudentCells(students[i], i) ==> w in writes
  {
    writes, copiedBlocks := [], [];
    var i := 0;
    while i < |students|
      invariant i <= |students|
      invariant |copiedBlocks| == BlockCount(i)
      invariant forall s :: 0 <= s < |copiedBlocks| ==> copiedBlocks[s] == s
      invariant |writes| == 13 * i
      invariant forall w :: w in writes ==> exists j :: 0 <= j < i && w in StudentCells(students[j], j)
      invariant forall j, w :: 0 <= j < i && w in StudentCells(students[j], j) ==> w in writes
    {
      var sheetNum := i / 8;
      BlockCountStep(i);
      if i % 8 == 0 {
        copiedBlocks := copiedBlocks + [sheetNum];
      }
      SheetCellsStep(students, i, writes);
      writes := writes + StudentCells(students[i], i);
      i := i + 1;
    }
  }
  /** Appending student i's cells keeps the writes exactly the cells of the students so far. */
  lemma SheetCellsStep(students: seq<StudentData>, i: nat, writes: seq<CellWrite>)
    requires i < |students|
    requires forall w :: w in writes ==> exists j :: 0 <= j < i && w in StudentCells(students[j], j)
    requires forall j, w :: 0 <= j < i && w in StudentCells(students[j], j) ==> w in writes
    ensures forall w :: w in writes + StudentCells(students[i], i) ==>
      exists j :: 0 <= j < i + 1 && w in StudentCells(students[j], j)
    ensures forall j, w :: 0 <= j < i + 1 && w in StudentCells(students[j], j) ==> w in writes + StudentCells(students[i], i)
  {
    var mine := StudentCells(students[i], i);
    forall w | w in writes + mine
      ensures exists j :: 0 <= j < i + 1 && w in StudentCells(students[j], j)
    {
      if w !in writes {
        assert w in StudentCells(students[i], i);
      }
    }
  }
}
