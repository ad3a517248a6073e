/** What the report code writes into a worksheet, as values: a cell address and its new value. */
module Sheets {
  import opened Wrappers
  import opened Dates
  import opened Text

  /** A cell's content: a value, or (`.Formula = ...`) a formula. */
  datatype CellValue =
    | TextValue(text: string) | NumberValue(number: real) | DateValue(date: DateTime) | NullValue
    | FormulaValue(formula: string)

  /** One `sheet.Cells[column + row].Value = value`. */
  datatype CellWrite = CellWrite(column: string, row: int, value: CellValue)

  /** One `sheet.Cells[row, column].Value = value`, columns numbered from 1 (A). */
  datatype GridWrite = GridWrite(row: int, column: int, value: CellValue)

  /** The A1-style address of a cell in columns A..Z, such as "P5". */
  function Address(row: nat, column: int): string
    requires 1 <= column <= 26
  {
    [('A' as int + column - 1) as char] + NatToString(row)
  }

  /** One `sheet.Cells[address].Value = value` with the address as one string, such as "B12". */
  datatype AddressWrite = AddressWrite(address: string, value: CellValue)

  function TextOrNull(s: Option<string>): CellValue
  {
    match s
    case None => NullValue
    case Some(t) => TextValue(t)
  }

  function DateOrNull(d: Option<DateTime>): CellValue
  {
    match d
    case None => NullValue
    case Some(t) => DateValue(t)
  }

  /** C# string concatenation reads a null string as "". */
  function OrEmpty(s: Option<string>): string
  {
    match s
    case None => ""
    case Some(t) => t
  }
}
