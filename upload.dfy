/**
 * The object DoUpload: the header labels and the legal-name map are fields
 * that getSpreadsheetColumnNames and filterColumnList fill, and that
 * buildValuesList reads.
 */
module Upload {
  import opened Wrappers
  import opened Strings
  import opened Sheet
  import opened Conversion
  import opened Reconcile
  import opened Rows

  /**
   * The type switch of buildValuesList for a value that is not NULL: the
   * literal its column type calls for, or the outcome that stops the tuple.
   */
  method ConvertValue(v: string, columnType: int, h: TextHelpers) returns (lit: Literal)
    requires v != "" && v != "null"
    ensures lit == ColumnLiteral(Some(v), columnType, h)
  {
    match Family(columnType) {
      case BinaryFamily => lit := Lit(v);
      case TextFamily => lit := Lit("'" + h.doubleQuotes(v) + "'");
      case RealFamily => lit := Lit(h.removeCommas(v));
      case IntegerFamily => lit := Lit(RemoveFraction(v));
      case DateFamily =>
        match h.serialDays(v) {
          case None => lit := BadSerial(v);
          case Some(n) => lit := Lit("'" + ExcelDateToDate(n) + "'");
        }
      case Other(_) => lit := UnrecognisedType;
    }
  }

  class DoUpload {
    /** The header labels, indexed by spreadsheet column. */
    var spreadsheetColumnNames: seq<string>
    /** Legal database column name to spreadsheet label. */
    var databaseToSpteadsheetNames: map<string, string>

    constructor ()
      ensures spreadsheetColumnNames == [] && databaseToSpteadsheetNames == map[]
    {
      spreadsheetColumnNames := [];
      databaseToSpteadsheetNames := map[];
    }

    /**
     * Reads the header row: each cell's label is inserted at the cell's
     * column index. A cell whose label cannot be read, or whose index lies
     * past the end of the list, ends the run.
     */
    method GetSpreadsheetColumnNames(firstRow: Row) returns (failure: Option<Failure>)
      modifies this`spreadsheetColumnNames
      ensures failure.None? <==> HeaderNames(firstRow).Ok?
      ensures failure.None? ==> spreadsheetColumnNames == HeaderNames(firstRow).value
      ensures failure.Some? ==> HeaderNames(firstRow) == Err(failure.value)
    {
      spreadsheetColumnNames := [];
      var i := 0;
      while i < |firstRow|
        invariant 0 <= i <= |firstRow|
        invariant HeaderNames(firstRow[..i]) == Ok(spreadsheetColumnNames)
      {
        assert firstRow[..i + 1][..i] == firstRow[..i];
        var (columnIndex, cell) := firstRow[i];
        var columnValue := HeaderLabel(cell);
        if columnValue.None? || columnIndex > |spreadsheetColumnNames| {
          HeaderFailureSticks(firstRow, i + 1);
          return Some(HeaderCell(columnIndex));
        }
        spreadsheetColumnNames := InsertAt(spreadsheetColumnNames, columnIndex, columnValue.value);
        i := i + 1;
      }
      assert firstRow[..i] == firstRow;
      return None;
    }

    /**
     * Puts every header label under its legal name, in label order, and
     * returns the destination columns whose name is one of those legal names.
     */
    method FilterColumnList(columnList: seq<ColumnMetaData>, convertToLegalName: string -> string)
      returns (newColumnList: seq<ColumnMetaData>)
      modifies this`databaseToSpteadsheetNames
      ensures databaseToSpteadsheetNames == LegalNameMap(spreadsheetColumnNames, convertToLegalName)
      ensures newColumnList == Retained(columnList, databaseToSpteadsheetNames)
    {
      databaseToSpteadsheetNames := map[];
      var i := 0;
      while i < |spreadsheetColumnNames|
        invariant 0 <= i <= |spreadsheetColumnNames|
        invariant databaseToSpteadsheetNames == LegalNameMap(spreadsheetColumnNames[..i], convertToLegalName)
      {
        assert spreadsheetColumnNames[..i + 1][..i] == spreadsheetColumnNames[..i];
        var columnName := spreadsheetColumnNames[i];
        databaseToSpteadsheetNames := databaseToSpteadsheetNames[convertToLegalName(columnName) := columnName];
        i := i + 1;
      }
      assert spreadsheetColumnNames[..i] == spreadsheetColumnNames;
      newColumnList := Retained(columnList, databaseToSpteadsheetNames);
    }

    /**
     * The tuple of one data row: Ok(Some(tuple)), Ok(None) for a row without
     * values or with an unrecognised column type, Err for the exceptions that
     * end the run.
     */
    method BuildValuesList(row: Row, metaDataList: seq<ColumnMetaData>, h: TextHelpers)
      returns (r: Result<Option<string>, Failure>)
      ensures r == ValuesList(spreadsheetColumnNames, databaseToSpteadsheetNames, row, metaDataList, h)
    {
      var record: map<string, string> := map[];
      var i := 0;
      while i < |row|
        invariant 0 <= i <= |row|
        invariant RecordOf(spreadsheetColumnNames, row[..i]) == Ok(record)
      {
        RecordStep(spreadsheetColumnNames, row, i, record);
        var (columnIndex, cell) := row[i];
        var value: Option<string> := None;
        match cell {
          case Boolean(b) => value := Some(if b then "true" else "false");
          case Numeric(text) => value := Some(text);
          case Str(s) => value := Some(s);
          case _ =>
        }
        if value.Some? {
          if columnIndex >= |spreadsheetColumnNames| {
            RecordFailureSticks(spreadsheetColumnNames, row, i + 1);
            return Err(DataCell(columnIndex));
          }
          record := record[spreadsheetColumnNames[columnIndex] := value.value];
        }
        i := i + 1;
      }
      assert row[..i] == row;
      if record == map[] {
        return Ok(None);
      }
      var valuesList: seq<string> := [];
      var j := 0;
      while j < |metaDataList|
        invariant 0 <= j <= |metaDataList|
        invariant Entries(databaseToSpteadsheetNames, record, metaDataList[..j], h) == Ok(Some(valuesList))
      {
        EntriesStep(databaseToSpteadsheetNames, record, metaDataList, h, j, valuesList);
        var columnType := metaDataList[j].dataType;
        var columnName := metaDataList[j].columnName;
        if columnName in databaseToSpteadsheetNames {
          var value := Lookup(record, databaseToSpteadsheetNames[columnName]);
          if value.None? || value.value == "" || value.value == "null" {
            valuesList := valuesList + ["NULL"];
          } else {
            var lit := ConvertValue(value.value, columnType, h);
            match lit {
              case Lit(text) => valuesList := valuesList + [text];
              case UnrecognisedType =>
                EntriesStopSticks(databaseToSpteadsheetNames, record, metaDataList, h, j + 1);
                return Ok(None);
              case BadSerial(text) =>
                EntriesStopSticks(databaseToSpteadsheetNames, record, metaDataList, h, j + 1);
                return Err(MalformedSerial(text));
            }
          }
        }
        j := j + 1;
      }
      assert metaDataList[..j] == metaDataList;
      return Ok(Some("(" + Join(valuesList, ", ") + ")"));
    }
  }
}
