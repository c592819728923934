/**
 * Header-to-column reconciliation: the header labels indexed by column
 * (getSpreadsheetColumnNames), the legal-name to label map and the
 * destination columns that keep a source (filterColumnList).
 */
module Reconcile {
  import opened Wrappers
  import opened Sheet

  /** ArrayList.add(index, element): element goes in at index, later ones move up. */
  function InsertAt(names: seq<string>, index: nat, columnValue: string): (r: seq<string>)
    requires index <= |names|
    ensures |r| == |names| + 1 && r[index] == columnValue
    ensures r[..index] == names[..index] && r[index + 1..] == names[index..]
  {
    names[..index] + [columnValue] + names[index..]
  }

  /**
   * The header list built from the first row: each cell's label inserted at
   * its column index. A cell whose label cannot be read, or whose index lies
   * past the end of the list built so far, ends the run.
   */
  function HeaderNames(firstRow: Row): Result<seq<string>, Failure>
  {
    if |firstRow| == 0 then Ok([])
    else
      match HeaderNames(firstRow[..|firstRow| - 1])
      case Err(f) => Err(f)
      case Ok(names) =>
        var (columnIndex, cell) := firstRow[|firstRow| - 1];
        match HeaderLabel(cell)
        case None => Err(HeaderCell(columnIndex))
        case Some(columnValue) =>
          if columnIndex <= |names| then Ok(InsertAt(names, columnIndex, columnValue))
          else Err(HeaderCell(columnIndex))
  }

  /** Once a header cell has failed, the cells after it change nothing. */
  lemma {:induction false} HeaderFailureSticks(firstRow: Row, i: nat)
    requires i <= |firstRow| && HeaderNames(firstRow[..i]).Err?
    ensures HeaderNames(firstRow) == HeaderNames(firstRow[..i])
    decreases |firstRow| - i
  {
    if i < |firstRow| {
      var prefix := firstRow[..|firstRow| - 1];
      assert prefix[..i] == firstRow[..i];
      HeaderFailureSticks(prefix, i);
    } else {
      assert firstRow[..i] == firstRow;
    }
  }

  /** A header that reads without failure has one label per cell. */
  lemma {:induction false} HeaderNamesLength(firstRow: Row)
    requires HeaderNames(firstRow).Ok?
    ensures |HeaderNames(firstRow).value| == |firstRow|
  {
    if |firstRow| > 0 {
      HeaderNamesLength(firstRow[..|firstRow| - 1]);
    }
  }

  predicate StrictlyIncreasing(row: Row) {
    forall i, j :: 0 <= i < j < |row| ==> row[i].0 < row[j].0
  }

  /**
   * Cells come in increasing column order. The header reads without failure
   * exactly when every cell has a readable label and the columns are 0, 1, 2, …
   * without a gap; the labels are then listed in column order.
   */
  lemma {:induction false} HeaderNamesInColumnOrder(firstRow: Row)
    requires StrictlyIncreasing(firstRow)
    ensures HeaderNames(firstRow).Ok? <==>
      forall k :: 0 <= k < |firstRow| ==> firstRow[k].0 == k && HeaderLabel(firstRow[k].1).Some?
    ensures HeaderNames(firstRow).Ok? ==>
      forall k :: 0 <= k < |firstRow| ==> HeaderNames(firstRow).value[k] == HeaderLabel(firstRow[k].1).value
  {
    if |firstRow| > 0 {
      var n := |firstRow| - 1;
      var prefix := firstRow[..n];
      assert StrictlyIncreasing(prefix);
      HeaderNamesInColumnOrder(prefix);
      ColumnsAtLeastPosition(firstRow, n);
      if HeaderNames(prefix).Ok? {
        HeaderNamesLength(prefix);
      }
    }
  }

  lemma {:induction false} ColumnsAtLeastPosition(row: Row, k: nat)
    requires StrictlyIncreasing(row) && k < |row|
    ensures row[k].0 >= k
  {
    if k > 0 {
      ColumnsAtLeastPosition(row, k - 1);
    }
  }

  /**
   * databaseToSpteadsheetNames: every label put under its legal name, in
   * list order, so a later label overwrites an earlier one with the same
   * legal name.
   */
  function LegalNameMap(labels: seq<string>, convertToLegalName: string -> string): map<string, string>
  {
    if |labels| == 0 then map[]
    else
      var last := labels[|labels| - 1];
      LegalNameMap(labels[..|labels| - 1], convertToLegalName)[convertToLegalName(last) := last]
  }

  /** The label at j is the last one in the list with its legal name. */
  predicate LastWithLegalName(labels: seq<string>, convertToLegalName: string -> string, j: int) {
    0 <= j < |labels| &&
    forall k :: j < k < |labels| ==> convertToLegalName(labels[k]) != convertToLegalName(labels[j])
  }

  /** The map's keys are exactly the legal names of the labels. */
  lemma {:induction false} LegalNameMapKeys(labels: seq<string>, convertToLegalName: string -> string)
    ensures forall key :: key in LegalNameMap(labels, convertToLegalName) <==>
      exists j :: 0 <= j < |labels| && convertToLegalName(labels[j]) == key
  {
    if |labels| > 0 {
      var n := |labels| - 1;
      var prefix := labels[..n];
      LegalNameMapKeys(prefix, convertToLegalName);
      var m := LegalNameMap(labels, convertToLegalName);
      assert m == LegalNameMap(prefix, convertToLegalName)[convertToLegalName(labels[n]) := labels[n]];
      forall key | key in m
        ensures exists j :: 0 <= j < |labels| && convertToLegalName(labels[j]) == key
      {
        if key != convertToLegalName(labels[n]) {
          assert key in LegalNameMap(prefix, convertToLegalName);
          var j :| 0 <= j < |prefix| && convertToLegalName(prefix[j]) == key;
          assert labels[j] == prefix[j];
        }
      }
      forall j | 0 <= j < |labels|
        ensures convertToLegalName(labels[j]) in m
      {
        if j < n {
          assert prefix[j] == labels[j];
        }
      }
    }
  }

  /** Each legal name maps to the last label, in list order, that legalises to it. */
  lemma {:induction false} LegalNameMapLastWins(labels: seq<string>, convertToLegalName: string -> string, j: int)
    requires LastWithLegalName(labels, convertToLegalName, j)
    ensures convertToLegalName(labels[j]) in LegalNameMap(labels, convertToLegalName)
    ensures LegalNameMap(labels, convertToLegalName)[convertToLegalName(labels[j])] == labels[j]
  {
    var n := |labels| - 1;
    var prefix := labels[..n];
    assert LegalNameMap(labels, convertToLegalName) ==
      LegalNameMap(prefix, convertToLegalName)[convertToLegalName(labels[n]) := labels[n]];
    if j < n {
      assert prefix[j] == labels[j];
      assert LastWithLegalName(prefix, convertToLegalName, j) by {
        forall k | j < k < |prefix|
          ensures convertToLegalName(prefix[k]) != convertToLegalName(prefix[j])
        {
          assert prefix[k] == labels[k];
        }
      }
      LegalNameMapLastWins(prefix, convertToLegalName, j);
    }
  }

  /** The destination columns whose name has a spreadsheet label, in destination order. */
  function Retained(columnList: seq<ColumnMetaData>, names: map<string, string>): (r: seq<ColumnMetaData>)
    ensures |r| <= |columnList|
  {
    if |columnList| == 0 then []
    else
      var last := columnList[|columnList| - 1];
      Retained(columnList[..|columnList| - 1], names) + (if last.columnName in names then [last] else [])
  }

  /** The positions in columnList of the columns Retained keeps. */
  function RetainedPositions(columnList: seq<ColumnMetaData>, names: map<string, string>): seq<nat>
  {
    if |columnList| == 0 then []
    else
      var n := |columnList| - 1;
      RetainedPositions(columnList[..n], names) + (if columnList[n].columnName in names then [n] else [])
  }

  /**
   * Retained is an order-preserving subsequence of columnList: the columns at
   * strictly increasing positions, and those positions are exactly the ones
   * whose column name has a label.
   */
  lemma {:induction false} RetainedIsSubsequence(columnList: seq<ColumnMetaData>, names: map<string, string>)
    ensures var r, p := Retained(columnList, names), RetainedPositions(columnList, names);
      && |p| == |r|
      && (forall i :: 0 <= i < |p| ==> p[i] < |columnList| && r[i] == columnList[p[i]])
      && (forall i, j :: 0 <= i < j < |p| ==> p[i] < p[j])
      && (forall k :: 0 <= k < |columnList| ==> (k in p <==> columnList[k].columnName in names))
  {
    if |columnList| > 0 {
      RetainedIsSubsequence(columnList[..|columnList| - 1], names);
    }
  }

  /** A column is kept exactly when it is a destination column whose name has a label. */
  lemma {:induction false} RetainedMembers(columnList: seq<ColumnMetaData>, names: map<string, string>)
    ensures forall c :: c in Retained(columnList, names) <==> c in columnList && c.columnName in names
  {
    if |columnList| > 0 {
      var n := |columnList| - 1;
      RetainedMembers(columnList[..n], names);
      assert columnList == columnList[..n] + [columnList[n]];
    }
  }

  /** Filtering an already filtered list changes nothing. */
  lemma {:induction false} RetainedIdempotent(columnList: seq<ColumnMetaData>, names: map<string, string>)
    ensures Retained(Retained(columnList, names), names) == Retained(columnList, names)
  {
    if |columnList| > 0 {
      var n := |columnList| - 1;
      var r := Retained(columnList[..n], names);
      RetainedIdempotent(columnList[..n], names);
      assert Retained(columnList, names) == r + (if columnList[n].columnName in names then [columnList[n]] else []);
      if columnList[n].columnName in names {
        var r' := r + [columnList[n]];
        assert r'[..|r|] == r;
        assert Retained(r', names) == Retained(r, names) + [columnList[n]];
      } else {
        assert Retained(columnList, names) == r;
      }
    }
  }

  /**
   * filterColumnList keeps, in destination order, exactly the destination
   * columns whose name is the legal name of some header label.
   */
  lemma FilterKeepsMatchedColumns(columnList: seq<ColumnMetaData>, labels: seq<string>, convertToLegalName: string -> string)
    ensures forall c :: c in Retained(columnList, LegalNameMap(labels, convertToLegalName)) <==>
      c in columnList && exists j :: 0 <= j < |labels| && convertToLegalName(labels[j]) == c.columnName
  {
    LegalNameMapKeys(labels, convertToLegalName);
    RetainedMembers(columnList, LegalNameMap(labels, convertToLegalName));
  }
}
