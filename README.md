# LoadDBFromXLSX: a Dafny model of DoUpload

LoadDBFromXLSX copies the rows of one worksheet of an Excel workbook into a
database table. The class `DoUpload` does the work:

- it reads the header row into a list of labels indexed by column
  (`getSpreadsheetColumnNames`);
- it maps each label's legal database name to the label, and keeps the
  destination columns whose name has a label (`filterColumnList`);
- it turns each data row into a SQL tuple (`buildValuesList`). The row's
  cells become a label-to-text record, and each mapped column gets a
  literal chosen by its java.sql.Types code: `NULL`, the raw text, a quoted
  string, the text with its commas removed, the integer part
  (`removeFraction`), or a quoted ISO 8601 date decoded from a serial day
  number of the 1900 date system (`excelDateToDate`);
- it joins the tuples with `",\n"` into INSERT statements of about ten
  million characters each (the loop in `run`).

This project models each of those parts.

Files:

- `sheet.dfy`: what the loader receives. That is cells by kind, rows as
  (column index, cell) pairs, destination column metadata, the type codes,
  and the exceptions that end a run. The helpers whose code lies outside
  the class are function-valued parameters.
- `strings.dfy`: `String.indexOf` and the text a `StringJoiner` builds.
- `civil_date.dfy`: the proleptic Gregorian calendar. It covers the day
  number of a date counted from 1970-01-01, the date of a day number, and
  the `YYYY-MM-DD` text `ISO_LOCAL_DATE` writes, with a reader for that
  text.
- `conversion.dfy`: `removeFraction`, `excelDateToDate`, and the literal of
  one destination column.
- `reconcile.dfy`: the header list, the legal-name map and the column
  filter, as functions.
- `rows.dfy`: `buildValuesList` as functions.
- `batching.dfy`: the batching loop of `run`, as methods.
- `upload.dfy`: the class `DoUpload`. Its fields are the header list and
  the legal-name map. Its methods are proved equal to the functions of
  `reconcile.dfy` and `rows.dfy`.

An exception that ends the run is an `Err` of `Failure`. `Optional.empty()`
is `Ok(None)`.

## Model

| member | source | states |
|---|---|---|
| Strings.IndexOf | src/main/java/edu/temple/cla/papolicy/wolfgang/loaddbfromxlsx/DoUpload.java:287 | -1 exactly when the character does not occur; otherwise the position of its first occurrence |
| Strings.JoinSnoc | src/main/java/edu/temple/cla/papolicy/wolfgang/loaddbfromxlsx/DoUpload.java:122 | adding a part to a joiner appends the separator and the part, or only the part when the joiner is empty |
| Sheet.CellValue | src/main/java/edu/temple/cla/papolicy/wolfgang/loaddbfromxlsx/DoUpload.java:205-227 | boolean, numeric and string cells give a value; untyped, blank, error and formula cells give none |
| Sheet.HeaderLabel | src/main/java/edu/temple/cla/papolicy/wolfgang/loaddbfromxlsx/DoUpload.java:156-157 | a header label can be read from exactly the string and blank cells |
| Sheet.Family | src/main/java/edu/temple/cla/papolicy/wolfgang/loaddbfromxlsx/DoUpload.java:251-279 | the type codes of each branch of the type switch, both directions; every other code falls to the default branch |
| Conversion.RemoveFraction | src/main/java/edu/temple/cla/papolicy/wolfgang/loaddbfromxlsx/DoUpload.java:286-292 | the result has no '.', is a prefix of the input, is the whole input when it has no '.', and otherwise stops right before the first '.' |
| Conversion.RemoveFractionIdempotent | src/main/java/edu/temple/cla/papolicy/wolfgang/loaddbfromxlsx/DoUpload.java:286-292 | removing the fraction twice gives the same result as once |
| Conversion.EpochConstants | src/main/java/edu/temple/cla/papolicy/wolfgang/loaddbfromxlsx/DoUpload.java:74-78 | BASE_TIME is day -25568 counted from 1970-01-01, and FEB28_1900_NUM_DAYS is 59 |
| Conversion.SerialToDate | src/main/java/edu/temple/cla/papolicy/wolfgang/loaddbfromxlsx/DoUpload.java:294-302 | the decoded date is a valid date whose day number is BASE_TIME plus the serial, less one for serials above 59 |
| Conversion.SerialToDateStep | src/main/java/edu/temple/cla/papolicy/wolfgang/loaddbfromxlsx/DoUpload.java:297-299 | serials 59 and 60 give the same date; otherwise serial n+1 gives the calendar day after serial n |
| Conversion.SerialEpoch | src/main/java/edu/temple/cla/papolicy/wolfgang/loaddbfromxlsx/DoUpload.java:294-305 | serial 0 is 1899-12-31 and serial 1 is 1900-01-01, as dates and as text |
| Conversion.LeapYearBoundary | src/main/java/edu/temple/cla/papolicy/wolfgang/loaddbfromxlsx/DoUpload.java:297-299 | serials 59 and 60 are both 1900-02-28 and serial 61 is 1900-03-01, as dates and as text |
| Conversion.SerialYearRange | src/main/java/edu/temple/cla/papolicy/wolfgang/loaddbfromxlsx/DoUpload.java:294-302 | serials 1 to 2958465 decode to years 1900 to 9999 |
| Conversion.ExcelDateToDateReadsBack | src/main/java/edu/temple/cla/papolicy/wolfgang/loaddbfromxlsx/DoUpload.java:303-304 | for those serials the text is ten characters long and reads back as the decoded date |
| Conversion.ColumnLiteral | src/main/java/edu/temple/cla/papolicy/wolfgang/loaddbfromxlsx/DoUpload.java:247-279 | absent, empty or "null" values give NULL whatever the type; otherwise BINARY and VARBINARY give the value as it is, CHAR, VARCHAR and LONGVARCHAR the value with its quotes doubled between single quotes, REAL and DOUBLE the value without commas, BIT, TINYINT, SMALLINT and INTEGER the value without its fraction, DATE and TIMESTAMP the quoted ISO date of the serial; an unknown type code with a value gives the row-dropping outcome; a malformed date happens exactly for date columns whose text has no serial |
| Conversion.IntegerColumnTruncates | src/main/java/edu/temple/cla/papolicy/wolfgang/loaddbfromxlsx/DoUpload.java:265-270 | an integer-family literal is the whole value when it has no '.', and otherwise the value up to its first '.'; it never holds a '.' |
| Conversion.DateColumnQuotesIsoDate | src/main/java/edu/temple/cla/papolicy/wolfgang/loaddbfromxlsx/DoUpload.java:271-274 | a date-family literal is a quoted ten-character date that reads back as the serial's date |
| CivilDate.OfEpochDay | src/main/java/edu/temple/cla/papolicy/wolfgang/loaddbfromxlsx/DoUpload.java:301-302 | the UTC date of a day number is a valid date with exactly that day number |
| CivilDate.EpochDayInjective | src/main/java/edu/temple/cla/papolicy/wolfgang/loaddbfromxlsx/DoUpload.java:301-302 | two valid dates with the same day number are the same date |
| CivilDate.OfEpochDayRoundTrip | src/main/java/edu/temple/cla/papolicy/wolfgang/loaddbfromxlsx/DoUpload.java:301-302 | the date of a valid date's day number is that date |
| CivilDate.OfEpochDaySuccessor | src/main/java/edu/temple/cla/papolicy/wolfgang/loaddbfromxlsx/DoUpload.java:301-302 | the date of day number n+1 is the calendar day after the date of n |
| CivilDate.IsoDateRoundTrip | src/main/java/edu/temple/cla/papolicy/wolfgang/loaddbfromxlsx/DoUpload.java:303 | a valid date of year 0 to 9999 is written as ten characters, and they read back as that date |
| Reconcile.HeaderFailureSticks | src/main/java/edu/temple/cla/papolicy/wolfgang/loaddbfromxlsx/DoUpload.java:161-164 | once a header cell has failed, the header failure is that one whatever follows |
| Reconcile.HeaderNamesLength | src/main/java/edu/temple/cla/papolicy/wolfgang/loaddbfromxlsx/DoUpload.java:143-166 | a header that reads without failure has one label per cell |
| Reconcile.HeaderNamesInColumnOrder | src/main/java/edu/temple/cla/papolicy/wolfgang/loaddbfromxlsx/DoUpload.java:143-166 | for cells in increasing column order, the header reads exactly when the columns are 0, 1, 2 and so on and every label is readable; the labels are then in column order |
| Reconcile.LegalNameMapKeys | src/main/java/edu/temple/cla/papolicy/wolfgang/loaddbfromxlsx/DoUpload.java:180-185 | the map's keys are exactly the legal names of the labels |
| Reconcile.LegalNameMapLastWins | src/main/java/edu/temple/cla/papolicy/wolfgang/loaddbfromxlsx/DoUpload.java:180-185 | each legal name maps to the last label, in list order, with that legal name |
| Reconcile.Retained | src/main/java/edu/temple/cla/papolicy/wolfgang/loaddbfromxlsx/DoUpload.java:186-188 | the filter never lengthens the column list |
| Reconcile.RetainedIsSubsequence | src/main/java/edu/temple/cla/papolicy/wolfgang/loaddbfromxlsx/DoUpload.java:186-188 | the kept columns are the input columns at strictly increasing positions, and a position is kept exactly when its column name is a key |
| Reconcile.RetainedMembers | src/main/java/edu/temple/cla/papolicy/wolfgang/loaddbfromxlsx/DoUpload.java:186-188 | a column is kept exactly when it is in the input and its name is a key |
| Reconcile.RetainedIdempotent | src/main/java/edu/temple/cla/papolicy/wolfgang/loaddbfromxlsx/DoUpload.java:186-188 | filtering the filtered list changes nothing |
| Reconcile.FilterKeepsMatchedColumns | src/main/java/edu/temple/cla/papolicy/wolfgang/loaddbfromxlsx/DoUpload.java:179-189 | a column is kept exactly when its name is the legal name of some header label |
| Rows.RecordFailureSticks | src/main/java/edu/temple/cla/papolicy/wolfgang/loaddbfromxlsx/DoUpload.java:232-235 | once a data cell has failed, the row's failure is that one whatever follows |
| Rows.RecordFailsOutsideHeader | src/main/java/edu/temple/cla/papolicy/wolfgang/loaddbfromxlsx/DoUpload.java:228-235 | the record fails exactly when some cell with a value lies in a column the header does not reach |
| Rows.RecordEmptyIffNoValue | src/main/java/edu/temple/cla/papolicy/wolfgang/loaddbfromxlsx/DoUpload.java:200-240 | the record is empty exactly when no cell has a value |
| Rows.RecordValuesFromCells | src/main/java/edu/temple/cla/papolicy/wolfgang/loaddbfromxlsx/DoUpload.java:228-230 | every text in the record is the value of one of the row's cells |
| Rows.RecordKeys | src/main/java/edu/temple/cla/papolicy/wolfgang/loaddbfromxlsx/DoUpload.java:228-230 | a label is a key of the record exactly when some cell with a value lies in a header column with that label |
| Rows.RecordLastWins | src/main/java/edu/temple/cla/papolicy/wolfgang/loaddbfromxlsx/DoUpload.java:228-230 | the record maps a label to the value of the last cell with a value in a column with that label, since a later put overwrites an earlier one |
| Rows.EntriesStopSticks | src/main/java/edu/temple/cla/papolicy/wolfgang/loaddbfromxlsx/DoUpload.java:275-278 | once the tuple has stopped, at a row-dropping type or a malformed date, later columns change nothing |
| Rows.EntriesAligned | src/main/java/edu/temple/cla/papolicy/wolfgang/loaddbfromxlsx/DoUpload.java:241-283 | entries are complete exactly when every mapped column has a literal; then there is one entry per mapped column, in metadata order, each that column's literal |
| Rows.EntriesFirstStop | src/main/java/edu/temple/cla/papolicy/wolfgang/loaddbfromxlsx/DoUpload.java:251-279 | incomplete entries are decided by the first mapped column without a literal: a dropped row or a malformed-date failure |
| Rows.NoValueRowIsSkipped | src/main/java/edu/temple/cla/papolicy/wolfgang/loaddbfromxlsx/DoUpload.java:238-240 | a row none of whose cells has a value gives no tuple |
| Rows.TupleAligned | src/main/java/edu/temple/cla/papolicy/wolfgang/loaddbfromxlsx/DoUpload.java:241-283 | a tuple comes only from a row with a value, and it is "(" + entries joined by ", " + ")", one per mapped column in metadata order |
| Rows.TupleProduced | src/main/java/edu/temple/cla/papolicy/wolfgang/loaddbfromxlsx/DoUpload.java:238-283 | a row that has a value, whose record reads and whose mapped columns all have literals, gives the tuple "(" + those literals joined by ", " + ")", one per mapped column in metadata order |
| Rows.MalformedDateEndsRun | src/main/java/edu/temple/cla/papolicy/wolfgang/loaddbfromxlsx/DoUpload.java:271-273 | a row that has a value, whose first mapped column without a literal is a date column with unparseable text, ends the run with that text rather than being dropped |
| Rows.NoPartialTuple | src/main/java/edu/temple/cla/papolicy/wolfgang/loaddbfromxlsx/DoUpload.java:275-278 | a mapped column without a literal means no tuple for the row |
| Rows.UnrecognisedTypeDropsRow | src/main/java/edu/temple/cla/papolicy/wolfgang/loaddbfromxlsx/DoUpload.java:275-278 | a row whose first mapped column without a literal has an unrecognised type is dropped; the run does not end |
| Rows.EmptyStringsGiveNulls | src/main/java/edu/temple/cla/papolicy/wolfgang/loaddbfromxlsx/DoUpload.java:247-249 | a row of empty-string cells inside the header gives a tuple of NULLs, one per mapped column |
| Batching.BatchLengthBound | src/main/java/edu/temple/cla/papolicy/wolfgang/loaddbfromxlsx/DoUpload.java:119 | a batch filled under the limit exceeds it by at most one separator and its last tuple |
| Batching.FillBatch | src/main/java/edu/temple/cla/papolicy/wolfgang/loaddbfromxlsx/DoUpload.java:119-123 | the inner loop takes the present tuples of a run of rows, each while the joined text was under the limit; it takes at least one row and stops at the end of the rows, at the limit, or at a failing row |
| Batching.SendInBatches | src/main/java/edu/temple/cla/papolicy/wolfgang/loaddbfromxlsx/DoUpload.java:117-125 | the batches put together are the present tuples in row order; each batch is the tuples of a run of consecutive rows that starts where the previous one ended and stops at the first row at which the joined text reached the limit, or at the end of the rows; each statement is the header, a newline and its batch joined by ",\n"; a failing row ends the run without sending its batch |
| Batching.BatchesDetermined | src/main/java/edu/temple/cla/papolicy/wolfgang/loaddbfromxlsx/DoUpload.java:117-125 | when every row converts, the batches and their boundaries are determined by the rows: two batchings that both satisfy the loop's contract are equal |
| Batching.AppendBatch | src/main/java/edu/temple/cla/papolicy/wolfgang/loaddbfromxlsx/DoUpload.java:117-125 | appending the batch the inner loop filled keeps the boundaries consecutive and keeps the batches put together equal to the present tuples of the rows consumed |
| Batching.InnerBatchesReachedLimit | src/main/java/edu/temple/cla/papolicy/wolfgang/loaddbfromxlsx/DoUpload.java:119 | every batch before the last one stopped because its joined text reached the limit |
| Upload.DoUpload.constructor | src/main/java/edu/temple/cla/papolicy/wolfgang/loaddbfromxlsx/DoUpload.java:89-91 | the header list and the legal-name map start empty |
| Upload.DoUpload.GetSpreadsheetColumnNames | src/main/java/edu/temple/cla/papolicy/wolfgang/loaddbfromxlsx/DoUpload.java:143-166 | the field holds the header list, or the first failing header cell is reported |
| Upload.DoUpload.FilterColumnList | src/main/java/edu/temple/cla/papolicy/wolfgang/loaddbfromxlsx/DoUpload.java:179-189 | the field holds the legal-name map of the header list; the result is the filtered destination columns |
| Upload.DoUpload.BuildValuesList | src/main/java/edu/temple/cla/papolicy/wolfgang/loaddbfromxlsx/DoUpload.java:198-284 | the result is the tuple, the dropped row or the failure that the record and entry functions define |

## Left out

- Opening the workbook, finding the sheet, reading the first row, database
  connections, `DatabaseMetaData.getColumns`, `executeUpdate`, logging and
  the catch blocks of `run` are I/O. Rows and destination metadata are
  inputs, and a statement is modelled as the text that would be sent.
- `run` is not modelled as one method. The sequence is header, filter, then
  batches. `Batching.SendInBatches` takes each row's `buildValuesList`
  outcome as input.
- `Double.parseDouble` and the `(long)` cast in `excelDateToDate` use
  floating point. They are the parameter `serialDays`, which gives the whole
  number of days or nothing when the text is not a number. So "only the
  integer part of the serial counts" is a property of that parameter, not
  one proved here.
- `String.format("%.0f", …)` for numeric cells uses floating point. A
  numeric cell carries its rendered text.
- `Conversion.SerialToDate`: 64-bit overflow of the millisecond value, and
  the range limits of `Instant`, are not modelled. Day numbers are
  unbounded integers.
- `DBUtil.convertToLegalName`, `doubleQuotes`, `removeCommas` and
  `buildSqlInsertStatement`, and `ColumnMetaData.getColumnMetaDataList`,
  are not part of this model. The first three are function parameters.
  The insert header is a string parameter, the same for every batch,
  since each batch computes it from the same table and column list.
- Main.java is not part of this model. It only parses arguments and
  opens the file.
- `Batching.SendInBatches` counts a string's length in characters. Java's
  `length()` counts UTF-16 code units.
- `Sheet.HeaderLabel`: a formula header cell counts as unreadable. The
  workbook reader would return the cached text of a formula with a string
  result, and the model does not carry it.
- `Upload.DoUpload.GetSpreadsheetColumnNames`: after a failure the field's
  contents are not stated, since the run ends there.
- Failures keep the column index and the offending text, not the message
  wording or the row index.
- `Upload.DoUpload.constructor`: the fields start empty. In the source
  they are unset until the two methods assign them.

## Behaviour that follows the code

The model keeps the following behaviours of the code, each of which a
reader might not expect:

- A mapped column with a value whose type code has no branch in the
  switch drops the row (DoUpload.java:275-278). The code builds an error
  message there but never reports it, and the run goes on with the next
  row. This covers BIGINT, DECIMAL, NUMERIC, FLOAT, BOOLEAN and every
  other type code not listed in the switch.
- After the inner loop ends, the statement is sent whatever the batch
  holds (DoUpload.java:124-125). A batch whose rows all gave no tuple is
  sent as a statement with nothing after the header line.
- TIMESTAMP columns take the same branch as DATE (DoUpload.java:271-273),
  and that branch formats an ISO local date (DoUpload.java:303), so they
  get a date only, with no time of day.
- An empty filtered column list is returned as it is
  (DoUpload.java:186-188), without any report. Every tuple is then "()".
