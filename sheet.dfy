/**
 * What the loader receives from its collaborators: spreadsheet cells as the
 * workbook reader hands them over, destination column metadata, the
 * java.sql.Types codes it dispatches on, and the exceptions that end a run.
 */
module Sheet {
  import opened Wrappers

  /**
   * A cell by kind. Untyped stands for the reader's _NONE kind. A Numeric
   * cell carries the text `String.format("%.0f", …)` renders for its value.
   */
  datatype Cell =
    | Untyped
    | Blank
    | Boolean(b: bool)
    | Error
    | Formula
    | Numeric(text: string)
    | Str(s: string)

  /** A row: its cells in iteration order, each with its column index. */
  type Row = seq<(nat, Cell)>

  /** Exceptions that escape the conversion and end the run. */
  datatype Failure =
    | HeaderCell(columnIndex: nat)   // "Error processing first row, column …"
    | DataCell(columnIndex: nat)     // "Error processing row: …, column: …"
    | MalformedSerial(text: string)  // Double.parseDouble rejected a date cell's text

  /** A destination column: its name and its java.sql.Types code. */
  datatype ColumnMetaData = ColumnMetaData(columnName: string, dataType: int)

  /** Collaborators whose source is outside the model, passed in as functions. */
  datatype TextHelpers = TextHelpers(
    doubleQuotes: string -> string,      // DBUtil.doubleQuotes
    removeCommas: string -> string,      // DBUtil.removeCommas
    serialDays: string -> Option<int>)   // Double.parseDouble then the (long) cast; None when it throws

  /** The text a data cell contributes to a row's record, if any. */
  function CellValue(c: Cell): (v: Option<string>)
    ensures v.None? <==> (c.Untyped? || c.Blank? || c.Error? || c.Formula?)
  {
    match c
    case Boolean(b) => Some(if b then "true" else "false")
    case Numeric(text) => Some(text)
    case Str(s) => Some(s)
    case _ => None
  }

  /** A header cell's label, as getStringCellValue gives it; None where that call throws. */
  function HeaderLabel(c: Cell): (name: Option<string>)
    ensures name.Some? <==> (c.Str? || c.Blank?)
  {
    match c
    case Str(s) => Some(s)
    case Blank => Some("")
    case _ => None
  }

  // java.sql.Types codes the loader recognises.
  const BIT: int := -7
  const TINYINT: int := -6
  const SMALLINT: int := 5
  const INTEGER: int := 4
  const REAL: int := 7
  const DOUBLE: int := 8
  const CHAR: int := 1
  const VARCHAR: int := 12
  const LONGVARCHAR: int := -1
  const BINARY: int := -2
  const VARBINARY: int := -3
  const DATE: int := 91
  const TIMESTAMP: int := 93

  /** The conversion families of the loader's type switch; Other for every other code. */
  datatype TypeFamily = BinaryFamily | TextFamily | RealFamily | IntegerFamily | DateFamily | Other(code: int)

  function Family(dataType: int): (f: TypeFamily)
    ensures f.Other? ==> f.code == dataType
    ensures f == BinaryFamily <==> dataType in {BINARY, VARBINARY}
    ensures f == TextFamily <==> dataType in {CHAR, VARCHAR, LONGVARCHAR}
    ensures f == RealFamily <==> dataType in {REAL, DOUBLE}
    ensures f == IntegerFamily <==> dataType in {BIT, TINYINT, SMALLINT, INTEGER}
    ensures f == DateFamily <==> dataType in {TIMESTAMP, DATE}
  {
    if dataType == BINARY || dataType == VARBINARY then BinaryFamily
    else if dataType == CHAR || dataType == VARCHAR || dataType == LONGVARCHAR then TextFamily
    else if dataType == REAL || dataType == DOUBLE then RealFamily
    else if dataType == BIT || dataType == TINYINT || dataType == SMALLINT || dataType == INTEGER then IntegerFamily
    else if dataType == TIMESTAMP || dataType == DATE then DateFamily
    else Other(dataType)
  }
}
