/**
 * Row-to-tuple conversion (buildValuesList) as functions: the record of
 * label to text a row's cells give, the literals of the mapped columns, and
 * the tuple, a dropped row or the exception that ends the run.
 */
module Rows {
  import opened Wrappers
  import opened Strings
  import opened Sheet
  import opened Conversion
  import opened Reconcile

  /**
   * The record a data row gives: each cell with a value put under the header
   * label of its column, later cells overwriting earlier ones. A cell with a
   * value in a column the header does not reach ends the run.
   */
  function RecordOf(labels: seq<string>, row: Row): Result<map<string, string>, Failure>
  {
    if |row| == 0 then Ok(map[])
    else
      match RecordOf(labels, row[..|row| - 1])
      case Err(f) => Err(f)
      case Ok(record) =>
        var (columnIndex, cell) := row[|row| - 1];
        match CellValue(cell)
        case None => Ok(record)
        case Some(value) =>
          if columnIndex < |labels| then Ok(record[labels[columnIndex] := value])
          else Err(DataCell(columnIndex))
  }

  /** One more cell: a cell with a value is put under its column's label, or ends the run. */
  lemma RecordStep(labels: seq<string>, row: Row, i: nat, record: map<string, string>)
    requires i < |row| && RecordOf(labels, row[..i]) == Ok(record)
    ensures RecordOf(labels, row[..i + 1]) ==
      match CellValue(row[i].1)
      case None => Ok(record)
      case Some(value) =>
        if row[i].0 < |labels| then Ok(record[labels[row[i].0] := value]) else Err(DataCell(row[i].0))
  {
    assert row[..i + 1][..i] == row[..i];
  }

  /** No cell of the row has a value: all are blank, untyped, error or formula cells. */
  predicate NoValue(row: Row) {
    forall k :: 0 <= k < |row| ==> CellValue(row[k].1).None?
  }

  /** A cell with a value outside the header's columns. */
  predicate OutsideHeader(labels: seq<string>, row: Row, k: int) {
    0 <= k < |row| && CellValue(row[k].1).Some? && row[k].0 >= |labels|
  }

  lemma {:induction false} RecordFailureSticks(labels: seq<string>, row: Row, i: nat)
    requires i <= |row| && RecordOf(labels, row[..i]).Err?
    ensures RecordOf(labels, row) == RecordOf(labels, row[..i])
    decreases |row| - i
  {
    if i < |row| {
      var prefix := row[..|row| - 1];
      assert prefix[..i] == row[..i];
      RecordFailureSticks(labels, prefix, i);
    } else {
      assert row[..i] == row;
    }
  }

  /** The record fails exactly when some cell with a value lies outside the header's columns. */
  lemma {:induction false} RecordFailsOutsideHeader(labels: seq<string>, row: Row)
    ensures RecordOf(labels, row).Err? <==> exists k :: OutsideHeader(labels, row, k)
  {
    if |row| > 0 {
      var n := |row| - 1;
      var prefix := row[..n];
      RecordFailsOutsideHeader(labels, prefix);
      if exists k :: OutsideHeader(labels, prefix, k) {
        var k :| OutsideHeader(labels, prefix, k);
        assert OutsideHeader(labels, row, k);
      } else {
        forall k | OutsideHeader(labels, row, k)
          ensures k == n
        {
          if k < n {
            assert OutsideHeader(labels, prefix, k);
          }
        }
        if CellValue(row[n].1).Some? && row[n].0 >= |labels| {
          assert OutsideHeader(labels, row, n);
        }
      }
    }
  }

  /** The record is empty exactly when no cell has a value. */
  lemma {:induction false} RecordEmptyIffNoValue(labels: seq<string>, row: Row)
    requires RecordOf(labels, row).Ok?
    ensures RecordOf(labels, row).value == map[] <==> NoValue(row)
  {
    if |row| > 0 {
      var n := |row| - 1;
      var prefix := row[..n];
      RecordFailureFreePrefix(labels, row);
      RecordEmptyIffNoValue(labels, prefix);
      var previous := RecordOf(labels, prefix).value;
      match CellValue(row[n].1)
      case Some(value) =>
        assert row[n].0 < |labels|;
        assert RecordOf(labels, row).value == previous[labels[row[n].0] := value];
        assert labels[row[n].0] in RecordOf(labels, row).value;
        assert !NoValue(row);
      case None =>
        assert RecordOf(labels, row).value == previous;
        if NoValue(prefix) {
          forall k | 0 <= k < |row|
            ensures CellValue(row[k].1).None?
          {
            if k < n {
              assert prefix[k] == row[k];
            }
          }
        }
        if NoValue(row) {
          assert NoValue(prefix);
        }
    }
  }

  lemma RecordFailureFreePrefix(labels: seq<string>, row: Row)
    requires |row| > 0 && RecordOf(labels, row).Ok?
    ensures RecordOf(labels, row[..|row| - 1]).Ok?
  {
  }

  /** Every text in the record is the value of one of the row's cells. */
  lemma {:induction false} RecordValuesFromCells(labels: seq<string>, row: Row, texts: set<string>)
    requires RecordOf(labels, row).Ok?
    requires forall k :: 0 <= k < |row| && CellValue(row[k].1).Some? ==> CellValue(row[k].1).value in texts
    ensures forall key :: key in RecordOf(labels, row).value ==> RecordOf(labels, row).value[key] in texts
  {
    if |row| > 0 {
      var n := |row| - 1;
      var prefix := row[..n];
      forall k | 0 <= k < |prefix| && CellValue(prefix[k].1).Some?
        ensures CellValue(prefix[k].1).value in texts
      {
        assert prefix[k] == row[k];
      }
      RecordValuesFromCells(labels, prefix, texts);
    }
  }

  /** Cell k of the row has a value and lies in a header column labelled key. */
  predicate FiledUnder(labels: seq<string>, row: Row, k: int, key: string) {
    && 0 <= k < |row|
    && CellValue(row[k].1).Some?
    && row[k].0 < |labels|
    && labels[row[k].0] == key
  }

  /** A label is a key of the record exactly when some cell with a value lies in a column with that label. */
  lemma {:induction false} RecordKeys(labels: seq<string>, row: Row, key: string)
    requires RecordOf(labels, row).Ok?
    ensures key in RecordOf(labels, row).value <==> exists k :: FiledUnder(labels, row, k, key)
  {
    if |row| > 0 {
      var n := |row| - 1;
      var prefix := row[..n];
      RecordFailureFreePrefix(labels, row);
      RecordKeys(labels, prefix, key);
      var previous := RecordOf(labels, prefix).value;
      var record := RecordOf(labels, row).value;
      if exists k :: FiledUnder(labels, prefix, k, key) {
        var k :| FiledUnder(labels, prefix, k, key);
        assert prefix[k] == row[k];
        assert FiledUnder(labels, row, k, key);
      }
      if exists k :: FiledUnder(labels, row, k, key) {
        var k :| FiledUnder(labels, row, k, key);
        if k < n {
          assert prefix[k] == row[k];
          assert FiledUnder(labels, prefix, k, key);
        }
      }
      match CellValue(row[n].1)
      case None =>
        assert record == previous;
        assert !FiledUnder(labels, row, n, key);
      case Some(value) =>
        assert row[n].0 < |labels|;
        assert record == previous[labels[row[n].0] := value];
        if labels[row[n].0] == key {
          assert FiledUnder(labels, row, n, key);
        }
    }
  }

  /**
   * Later cells overwrite earlier ones: the record maps a label to the value
   * of the last cell with a value in a column with that label.
   */
  lemma {:induction false} RecordLastWins(labels: seq<string>, row: Row, k: int, key: string)
    requires RecordOf(labels, row).Ok? && FiledUnder(labels, row, k, key)
    requires forall later :: k < later < |row| ==> !FiledUnder(labels, row, later, key)
    ensures key in RecordOf(labels, row).value
    ensures RecordOf(labels, row).value[key] == CellValue(row[k].1).value
  {
    var n := |row| - 1;
    var prefix := row[..n];
    RecordFailureFreePrefix(labels, row);
    var previous := RecordOf(labels, prefix).value;
    var record := RecordOf(labels, row).value;
    if k == n {
      assert record == previous[key := CellValue(row[n].1).value];
    } else {
      assert prefix[k] == row[k];
      forall later | k < later < |prefix|
        ensures !FiledUnder(labels, prefix, later, key)
      {
        assert prefix[later] == row[later];
        assert !FiledUnder(labels, row, later, key);
      }
      RecordLastWins(labels, prefix, k, key);
      assert !FiledUnder(labels, row, n, key);
      match CellValue(row[n].1)
      case None =>
        assert record == previous;
      case Some(value) =>
        assert row[n].0 < |labels|;
        assert record == previous[labels[row[n].0] := value];
    }
  }

  /** record.get(label). */
  function Lookup(record: map<string, string>, columnLabel: string): (v: Option<string>)
    ensures v.Some? <==> columnLabel in record
    ensures v.Some? ==> v.value == record[columnLabel]
  {
    if columnLabel in record then Some(record[columnLabel]) else None
  }

  /** The record value of a destination column, through its spreadsheet label. */
  function ValueFor(names: map<string, string>, record: map<string, string>, column: ColumnMetaData): Option<string>
  {
    if column.columnName in names then Lookup(record, names[column.columnName]) else None
  }

  function LiteralOf(names: map<string, string>, record: map<string, string>, column: ColumnMetaData, h: TextHelpers): Literal
  {
    ColumnLiteral(ValueFor(names, record, column), column.dataType, h)
  }

  /**
   * The entries of a tuple, column by column in metadata order: columns
   * without a label contribute nothing; the first unrecognised type drops
   * the row and the first malformed date ends the run.
   */
  function Entries(names: map<string, string>, record: map<string, string>, columns: seq<ColumnMetaData>, h: TextHelpers)
    : Result<Option<seq<string>>, Failure>
  {
    if |columns| == 0 then Ok(Some([]))
    else
      match Entries(names, record, columns[..|columns| - 1], h)
      case Ok(Some(entries)) =>
        var column := columns[|columns| - 1];
        if column.columnName !in names then Ok(Some(entries))
        else
          (match LiteralOf(names, record, column, h)
           case Lit(text) => Ok(Some(entries + [text]))
           case UnrecognisedType => Ok(None)
           case BadSerial(text) => Err(MalformedSerial(text)))
      case stopped => stopped
  }

  /** What a literal other than Lit does to the tuple being built. */
  function Stop(lit: Literal): Result<Option<seq<string>>, Failure>
    requires !lit.Lit?
  {
    if lit.UnrecognisedType? then Ok(None) else Err(MalformedSerial(lit.text))
  }

  predicate Complete(e: Result<Option<seq<string>>, Failure>) {
    e.Ok? && e.value.Some?
  }

  /** One more column: an unmapped column adds nothing, a mapped one its literal or the stop. */
  lemma EntriesStep(names: map<string, string>, record: map<string, string>,
                    columns: seq<ColumnMetaData>, h: TextHelpers, j: nat, entries: seq<string>)
    requires j < |columns| && Entries(names, record, columns[..j], h) == Ok(Some(entries))
    ensures columns[j].columnName !in names ==> Entries(names, record, columns[..j + 1], h) == Ok(Some(entries))
    ensures columns[j].columnName in names ==>
      var lit := LiteralOf(names, record, columns[j], h);
      Entries(names, record, columns[..j + 1], h) == if lit.Lit? then Ok(Some(entries + [lit.text])) else Stop(lit)
  {
    assert columns[..j + 1][..j] == columns[..j];
  }

  lemma {:induction false} EntriesStopSticks(names: map<string, string>, record: map<string, string>,
                                             columns: seq<ColumnMetaData>, h: TextHelpers, i: nat)
    requires i <= |columns| && !Complete(Entries(names, record, columns[..i], h))
    ensures Entries(names, record, columns, h) == Entries(names, record, columns[..i], h)
    decreases |columns| - i
  {
    if i < |columns| {
      var prefix := columns[..|columns| - 1];
      assert prefix[..i] == columns[..i];
      EntriesStopSticks(names, record, prefix, h, i);
    } else {
      assert columns[..i] == columns;
    }
  }

  /**
   * All or nothing: the entries are complete exactly when every mapped
   * column has a literal, and then there is one entry per mapped column, in
   * metadata order, each that column's literal.
   */
  lemma {:induction false} EntriesAligned(names: map<string, string>, record: map<string, string>,
                                          columns: seq<ColumnMetaData>, h: TextHelpers)
    ensures var mapped := Retained(columns, names);
      Complete(Entries(names, record, columns, h)) <==>
        forall i :: 0 <= i < |mapped| ==> LiteralOf(names, record, mapped[i], h).Lit?
    ensures var mapped := Retained(columns, names);
      Complete(Entries(names, record, columns, h)) ==>
        var entries := Entries(names, record, columns, h).value.value;
        |entries| == |mapped| &&
        forall i :: 0 <= i < |mapped| ==> LiteralOf(names, record, mapped[i], h) == Lit(entries[i])
  {
    if |columns| > 0 {
      var n := |columns| - 1;
      var prefix := columns[..n];
      EntriesAligned(names, record, prefix, h);
      var mp := Retained(prefix, names);
      var mapped := Retained(columns, names);
      var column := columns[n];
      if column.columnName in names {
        assert mapped == mp + [column];
        assert mapped[|mp|] == column;
        forall i | 0 <= i < |mp|
          ensures mapped[i] == mp[i]
        {
        }
        if !Complete(Entries(names, record, prefix, h)) {
          var i :| 0 <= i < |mp| && !LiteralOf(names, record, mp[i], h).Lit?;
          assert !Complete(Entries(names, record, columns, h));
          assert !LiteralOf(names, record, mapped[i], h).Lit?;
        } else {
          var entries := Entries(names, record, prefix, h).value.value;
          match LiteralOf(names, record, column, h)
          case Lit(text) =>
            assert Entries(names, record, columns, h) == Ok(Some(entries + [text]));
          case UnrecognisedType =>
            assert !Complete(Entries(names, record, columns, h));
          case BadSerial(text) =>
            assert !Complete(Entries(names, record, columns, h));
        }
      } else {
        assert mapped == mp;
        assert Entries(names, record, columns, h) == Entries(names, record, prefix, h);
      }
    }
  }

  /**
   * The mapped column at position i of Retained(columns, names) is the first
   * one without a literal.
   */
  predicate FirstWithoutLiteral(names: map<string, string>, record: map<string, string>,
                                columns: seq<ColumnMetaData>, h: TextHelpers, i: int)
  {
    var mapped := Retained(columns, names);
    && 0 <= i < |mapped|
    && !LiteralOf(names, record, mapped[i], h).Lit?
    && forall j :: 0 <= j < i ==> LiteralOf(names, record, mapped[j], h).Lit?
  }

  /**
   * When the entries are not complete, the first mapped column without a
   * literal decides: an unrecognised type drops the row, a malformed date
   * ends the run.
   */
  lemma {:induction false} EntriesFirstStop(names: map<string, string>, record: map<string, string>,
                                            columns: seq<ColumnMetaData>, h: TextHelpers)
    requires !Complete(Entries(names, record, columns, h))
    ensures exists i ::
      && FirstWithoutLiteral(names, record, columns, h, i)
      && Entries(names, record, columns, h) == Stop(LiteralOf(names, record, Retained(columns, names)[i], h))
  {
    var n := |columns| - 1;
    var prefix := columns[..n];
    var mp := Retained(prefix, names);
    var mapped := Retained(columns, names);
    var column := columns[n];
    if Complete(Entries(names, record, prefix, h)) {
      EntriesAligned(names, record, prefix, h);
      if column.columnName !in names {
        assert false;
      }
      var lit := LiteralOf(names, record, column, h);
      assert Entries(names, record, columns, h) == Stop(lit);
      assert mapped == mp + [column];
      forall j | 0 <= j < |mp|
        ensures LiteralOf(names, record, mapped[j], h).Lit?
      {
        assert mapped[j] == mp[j];
      }
      assert FirstWithoutLiteral(names, record, columns, h, |mp|);
    } else {
      EntriesFirstStop(names, record, prefix, h);
      var i :| FirstWithoutLiteral(names, record, prefix, h, i) &&
        Entries(names, record, prefix, h) == Stop(LiteralOf(names, record, mp[i], h));
      assert mapped[..|mp|] == mp;
      assert mapped[i] == mp[i];
      forall j | 0 <= j < i
        ensures LiteralOf(names, record, mapped[j], h).Lit?
      {
        assert mapped[j] == mp[j];
      }
      assert FirstWithoutLiteral(names, record, columns, h, i);
    }
  }

  /** buildValuesList: the row's tuple, Ok(None) for a row it skips, Err for an exception. */
  function ValuesList(labels: seq<string>, names: map<string, string>, row: Row,
                      columns: seq<ColumnMetaData>, h: TextHelpers): Result<Option<string>, Failure>
  {
    match RecordOf(labels, row)
    case Err(f) => Err(f)
    case Ok(record) =>
      if record == map[] then Ok(None)
      else
        match Entries(names, record, columns, h)
        case Ok(Some(entries)) => Ok(Some("(" + Join(entries, ", ") + ")"))
        case Ok(None) => Ok(None)
        case Err(f) => Err(f)
  }

  /** A row none of whose cells has a value gives no tuple. */
  lemma NoValueRowIsSkipped(labels: seq<string>, names: map<string, string>, row: Row,
                            columns: seq<ColumnMetaData>, h: TextHelpers)
    requires NoValue(row)
    ensures ValuesList(labels, names, row, columns, h) == Ok(None)
  {
    RecordFailsOutsideHeader(labels, row);
    RecordEmptyIffNoValue(labels, row);
  }

  /**
   * A tuple is "(" + its entries joined by ", " + ")", one entry per mapped
   * column in metadata order, each that column's literal; it comes only from
   * a row some cell of which has a value.
   */
  lemma TupleAligned(labels: seq<string>, names: map<string, string>, row: Row,
                     columns: seq<ColumnMetaData>, h: TextHelpers, tuple: string)
    requires ValuesList(labels, names, row, columns, h) == Ok(Some(tuple))
    ensures !NoValue(row) && RecordOf(labels, row).Ok?
    ensures var record, mapped := RecordOf(labels, row).value, Retained(columns, names);
      exists entries :: tuple == "(" + Join(entries, ", ") + ")" && |entries| == |mapped| &&
        forall i :: 0 <= i < |mapped| ==> LiteralOf(names, record, mapped[i], h) == Lit(entries[i])
  {
    RecordEmptyIffNoValue(labels, row);
    var record := RecordOf(labels, row).value;
    EntriesAligned(names, record, columns, h);
    var entries := Entries(names, record, columns, h).value.value;
    assert tuple == "(" + Join(entries, ", ") + ")";
  }

  /**
   * The converse of TupleAligned: a row that has a value, whose record
   * reads and whose mapped columns all have literals, gives the tuple of
   * those literals.
   */
  lemma TupleProduced(labels: seq<string>, names: map<string, string>, row: Row,
                      columns: seq<ColumnMetaData>, h: TextHelpers)
    requires RecordOf(labels, row).Ok? && !NoValue(row)
    requires var mapped := Retained(columns, names);
      forall i :: 0 <= i < |mapped| ==> LiteralOf(names, RecordOf(labels, row).value, mapped[i], h).Lit?
    ensures var record, mapped := RecordOf(labels, row).value, Retained(columns, names);
      exists entries ::
        && ValuesList(labels, names, row, columns, h) == Ok(Some("(" + Join(entries, ", ") + ")"))
        && |entries| == |mapped|
        && forall i :: 0 <= i < |mapped| ==> LiteralOf(names, record, mapped[i], h) == Lit(entries[i])
  {
    RecordEmptyIffNoValue(labels, row);
    var record := RecordOf(labels, row).value;
    EntriesAligned(names, record, columns, h);
    var entries := Entries(names, record, columns, h).value.value;
    assert ValuesList(labels, names, row, columns, h) == Ok(Some("(" + Join(entries, ", ") + ")"));
  }

  /**
   * A row that has a value, whose first mapped column without a literal is
   * a date column with unparseable text, ends the run with that text.
   */
  lemma MalformedDateEndsRun(labels: seq<string>, names: map<string, string>, row: Row,
                             columns: seq<ColumnMetaData>, h: TextHelpers, i: int, text: string)
    requires RecordOf(labels, row).Ok? && !NoValue(row)
    requires FirstWithoutLiteral(names, RecordOf(labels, row).value, columns, h, i)
    requires LiteralOf(names, RecordOf(labels, row).value, Retained(columns, names)[i], h) == BadSerial(text)
    ensures ValuesList(labels, names, row, columns, h) == Err(MalformedSerial(text))
  {
    var record := RecordOf(labels, row).value;
    RecordEmptyIffNoValue(labels, row);
    EntriesAligned(names, record, columns, h);
    EntriesFirstStop(names, record, columns, h);
    var k :| FirstWithoutLiteral(names, record, columns, h, k) &&
      Entries(names, record, columns, h) == Stop(LiteralOf(names, record, Retained(columns, names)[k], h));
    assert k == i;
  }

  /** No partial tuple: a mapped column without a literal leaves the row without a tuple. */
  lemma NoPartialTuple(labels: seq<string>, names: map<string, string>, row: Row,
                       columns: seq<ColumnMetaData>, h: TextHelpers, i: int)
    requires RecordOf(labels, row).Ok?
    requires var mapped := Retained(columns, names);
      0 <= i < |mapped| && !LiteralOf(names, record := RecordOf(labels, row).value, column := mapped[i], h := h).Lit?
    ensures !(ValuesList(labels, names, row, columns, h).Ok? && ValuesList(labels, names, row, columns, h).value.Some?)
  {
    EntriesAligned(names, RecordOf(labels, row).value, columns, h);
  }

  /**
   * A row that has values, whose first mapped column without a literal has
   * an unrecognised type, is dropped rather than ending the run.
   */
  lemma UnrecognisedTypeDropsRow(labels: seq<string>, names: map<string, string>, row: Row,
                                 columns: seq<ColumnMetaData>, h: TextHelpers, i: int)
    requires RecordOf(labels, row).Ok? && !NoValue(row)
    requires var mapped, record := Retained(columns, names), RecordOf(labels, row).value;
      && 0 <= i < |mapped|
      && LiteralOf(names, record, mapped[i], h).UnrecognisedType?
      && forall j :: 0 <= j < i ==> LiteralOf(names, record, mapped[j], h).Lit?
    ensures ValuesList(labels, names, row, columns, h) == Ok(None)
  {
    var record := RecordOf(labels, row).value;
    var mapped := Retained(columns, names);
    RecordEmptyIffNoValue(labels, row);
    EntriesAligned(names, record, columns, h);
    EntriesFirstStop(names, record, columns, h);
    var k :| FirstWithoutLiteral(names, record, columns, h, k) &&
      Entries(names, record, columns, h) == Stop(LiteralOf(names, record, mapped[k], h));
    assert k == i;
  }

  /**
   * A row whose cells are all empty strings, within the header's columns,
   * gives a tuple of NULL literals, one per mapped column, whatever the
   * column types.
   */
  lemma EmptyStringsGiveNulls(labels: seq<string>, names: map<string, string>, row: Row,
                              columns: seq<ColumnMetaData>, h: TextHelpers)
    requires |row| > 0
    requires forall k :: 0 <= k < |row| ==> row[k].1 == Str("") && row[k].0 < |labels|
    ensures ValuesList(labels, names, row, columns, h) ==
      Ok(Some("(" + Join(seq(|Retained(columns, names)|, _ => "NULL"), ", ") + ")"))
  {
    RecordFailsOutsideHeader(labels, row);
    RecordEmptyIffNoValue(labels, row);
    RecordValuesFromCells(labels, row, {""});
    var record := RecordOf(labels, row).value;
    var mapped := Retained(columns, names);
    assert CellValue(row[0].1).Some?;
    forall i | 0 <= i < |mapped|
      ensures LiteralOf(names, record, mapped[i], h) == Lit("NULL")
    {
      var v := ValueFor(names, record, mapped[i]);
      assert v.None? || v.value == "";
    }
    EntriesAligned(names, record, columns, h);
    var entries := Entries(names, record, columns, h).value.value;
    assert entries == seq(|mapped|, _ => "NULL");
  }
}
