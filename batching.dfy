/**
 * The batching loop of DoUpload.run: the tuples of consecutive rows are
 * joined with ",\n" into one INSERT statement until the joined text reaches
 * ten million characters, then the statement is sent and a new one begun.
 */
module Batching {
  import opened Wrappers
  import opened Strings
  import opened Sheet

  /** A statement takes no further row once its joined tuples are this long. */
  const BatchLimit: nat := 10000000

  const RowSeparator: string := ",\n"

  /** What buildValuesList gives for one row: a tuple, a skipped row, or an exception. */
  type Outcome = Result<Option<string>, Failure>

  /** The tuples of the given rows, in row order; skipped rows contribute nothing. */
  function Present(outcomes: seq<Outcome>): seq<string>
  {
    if |outcomes| == 0 then []
    else
      Present(outcomes[..|outcomes| - 1]) +
        (match outcomes[|outcomes| - 1] case Ok(Some(tuple)) => [tuple] case _ => [])
  }

  /** The batches one after the other. */
  function Concat(batches: seq<seq<string>>): seq<string>
  {
    if |batches| == 0 then [] else Concat(batches[..|batches| - 1]) + batches[|batches| - 1]
  }

  /** Every tuple of the batch went in while the text joined before it was under the limit. */
  predicate FilledUnderLimit(batch: seq<string>)
  {
    forall k :: 0 <= k < |batch| ==> |Join(batch[..k], RowSeparator)| < BatchLimit
  }

  /** The first n batches each reached the limit. */
  predicate ReachedLimit(batches: seq<seq<string>>, n: int)
  {
    forall j :: 0 <= j < n && j < |batches| ==> |Join(batches[j], RowSeparator)| >= BatchLimit
  }

  /** Statement j is the insert header, a newline and batch j joined by ",\n". */
  predicate StatementsOf(statements: seq<string>, batches: seq<seq<string>>, insertHeader: string)
  {
    && |statements| == |batches|
    && forall j :: 0 <= j < |batches| ==> statements[j] == insertHeader + "\n" + Join(batches[j], RowSeparator)
  }

  /** Each of rows lo to hi - 1 was read while the text joined from row lo on was under the limit. */
  predicate ReadUnderLimit(outcomes: seq<Outcome>, lo: int, hi: int)
    requires 0 <= lo <= hi <= |outcomes|
  {
    forall m :: lo <= m < hi ==> |Join(Present(outcomes[lo..m]), RowSeparator)| < BatchLimit
  }

  /** One more row read under the limit. */
  lemma ReadUnderLimitStep(outcomes: seq<Outcome>, lo: int, hi: int)
    requires 0 <= lo <= hi < |outcomes| && ReadUnderLimit(outcomes, lo, hi)
    requires |Join(Present(outcomes[lo..hi]), RowSeparator)| < BatchLimit
    ensures ReadUnderLimit(outcomes, lo, hi + 1)
  {
  }

  /**
   * The batch is what the inner loop takes from row lo on when it stops at
   * row hi: the present tuples of rows lo to hi - 1, each row read while the
   * text joined before it was under the limit, and hi the end of the rows or
   * the first row at which the joined text had reached the limit.
   */
  predicate BatchSpan(outcomes: seq<Outcome>, batch: seq<string>, lo: int, hi: int)
  {
    && 0 <= lo < hi <= |outcomes|
    && batch == Present(outcomes[lo..hi])
    && ReadUnderLimit(outcomes, lo, hi)
    && (hi == |outcomes| || |Join(batch, RowSeparator)| >= BatchLimit)
  }

  /** Batch j spans rows bounds[j] to bounds[j + 1] - 1; the first batch starts at row 0. */
  predicate BatchBoundaries(outcomes: seq<Outcome>, batches: seq<seq<string>>, bounds: seq<int>)
  {
    && |bounds| == |batches| + 1
    && bounds[0] == 0
    && forall j :: 0 <= j < |batches| ==> BatchSpan(outcomes, batches[j], bounds[j], bounds[j + 1])
  }

  /** No row before position n ended the run with an exception. */
  predicate NoFailureBefore(outcomes: seq<Outcome>, n: int)
  {
    forall k :: 0 <= k < n && k < |outcomes| ==> outcomes[k].Ok?
  }

  lemma {:induction false} PresentAppend(a: seq<Outcome>, b: seq<Outcome>)
    ensures Present(a + b) == Present(a) + Present(b)
    decreases |b|
  {
    if |b| > 0 {
      var b' := b[..|b| - 1];
      assert (a + b)[..|a + b| - 1] == a + b';
      PresentAppend(a, b');
    } else {
      assert a + b == a;
    }
  }

  /** One more row: its tuple, if it has one, goes after the others. */
  lemma PresentSnoc(outcomes: seq<Outcome>, lo: int, hi: int)
    requires 0 <= lo <= hi < |outcomes|
    ensures Present(outcomes[lo..hi + 1]) ==
      Present(outcomes[lo..hi]) + (match outcomes[hi] case Ok(Some(tuple)) => [tuple] case _ => [])
  {
    assert outcomes[lo..hi + 1][..hi - lo] == outcomes[lo..hi];
  }

  lemma ConcatSnoc(batches: seq<seq<string>>, batch: seq<string>)
    ensures Concat(batches + [batch]) == Concat(batches) + batch
  {
    assert (batches + [batch])[..|batches|] == batches;
  }

  /**
   * A batch filled under the limit overshoots it by at most one separator
   * and its last tuple.
   */
  lemma BatchLengthBound(batch: seq<string>)
    requires FilledUnderLimit(batch) && |batch| > 0
    ensures |Join(batch, RowSeparator)| < BatchLimit + |RowSeparator| + |batch[|batch| - 1]|
  {
    var n := |batch| - 1;
    assert |Join(batch[..n], RowSeparator)| < BatchLimit;
    if n > 0 {
      assert Join(batch, RowSeparator) == Join(batch[..n], RowSeparator) + RowSeparator + batch[n];
    }
  }

  /** A tuple added while the joined text is under the limit keeps the batch filled under the limit. */
  lemma FilledUnderLimitSnoc(values: seq<string>, tuple: string)
    requires FilledUnderLimit(values) && |Join(values, RowSeparator)| < BatchLimit
    ensures FilledUnderLimit(values + [tuple])
  {
    var values' := values + [tuple];
    forall k | 0 <= k < |values'|
      ensures |Join(values'[..k], RowSeparator)| < BatchLimit
    {
      if k < |values| {
        assert values'[..k] == values[..k];
      } else {
        assert values'[..k] == values;
      }
    }
  }

  /**
   * The inner loop of the batching: takes rows from start on while there are
   * rows and the joined text is under the limit. next is the first row not
   * taken, or the row whose conversion threw.
   */
  method FillBatch(outcomes: seq<Outcome>, start: nat)
    returns (values: seq<string>, joined: string, next: nat, failure: Option<Failure>)
    requires start < |outcomes|
    ensures start <= next <= |outcomes|
    ensures forall k :: start <= k < next ==> outcomes[k].Ok?
    ensures values == Present(outcomes[start..next])
    ensures joined == Join(values, RowSeparator)
    ensures FilledUnderLimit(values)
    ensures ReadUnderLimit(outcomes, start, next)
    ensures failure.None? ==> BatchSpan(outcomes, values, start, next)
    ensures failure.Some? ==> next < |outcomes| && outcomes[next] == Err(failure.value) && |joined| < BatchLimit
  {
    values, joined, next, failure := [], "", start, None;
    while next < |outcomes| && |joined| < BatchLimit
      invariant start <= next <= |outcomes|
      invariant forall k :: start <= k < next ==> outcomes[k].Ok?
      invariant values == Present(outcomes[start..next])
      invariant joined == Join(values, RowSeparator)
      invariant FilledUnderLimit(values)
      invariant ReadUnderLimit(outcomes, start, next)
      invariant next == start ==> joined == ""
      decreases |outcomes| - next
    {
      ReadUnderLimitStep(outcomes, start, next);
      PresentSnoc(outcomes, start, next);
      if outcomes[next].Err? {
        failure := Some(outcomes[next].error);
        return;
      }
      if outcomes[next].value.Some? {
        var tuple := outcomes[next].value.value;
        JoinSnoc(values, tuple, RowSeparator);
        FilledUnderLimitSnoc(values, tuple);
        joined := if values == [] then tuple else joined + RowSeparator + tuple;
        values := values + [tuple];
      }
      next := next + 1;
    }
  }

  /** A completed batch extends the boundaries and the tuples sent so far. */
  lemma AppendBatch(outcomes: seq<Outcome>, batches: seq<seq<string>>, bounds: seq<int>, batch: seq<string>, next: int)
    requires BatchBoundaries(outcomes, batches, bounds)
    requires BatchSpan(outcomes, batch, bounds[|batches|], next)
    requires Concat(batches) == Present(outcomes[..bounds[|batches|]])
    ensures BatchBoundaries(outcomes, batches + [batch], bounds + [next])
    ensures Concat(batches + [batch]) == Present(outcomes[..next])
  {
    var consumed := bounds[|batches|];
    AppendedTuples(outcomes, batches, batch, consumed, next);
    var batches', bounds' := batches + [batch], bounds + [next];
    forall j | 0 <= j < |batches'|
      ensures BatchSpan(outcomes, batches'[j], bounds'[j], bounds'[j + 1])
    {
      if j < |batches| {
        assert BatchSpan(outcomes, batches[j], bounds[j], bounds[j + 1]);
        assert batches'[j] == batches[j] && bounds'[j] == bounds[j] && bounds'[j + 1] == bounds[j + 1];
      } else {
        assert batches'[j] == batch && bounds'[j] == consumed && bounds'[j + 1] == next;
      }
    }
  }

  lemma AppendedTuples(outcomes: seq<Outcome>, batches: seq<seq<string>>, batch: seq<string>, consumed: int, next: int)
    requires 0 <= consumed <= next <= |outcomes|
    requires Concat(batches) == Present(outcomes[..consumed]) && batch == Present(outcomes[consumed..next])
    ensures Concat(batches + [batch]) == Present(outcomes[..next])
  {
    ConcatSnoc(batches, batch);
    PresentAppend(outcomes[..consumed], outcomes[consumed..next]);
    assert outcomes[..consumed] + outcomes[consumed..next] == outcomes[..next];
  }

  /** The batch in progress when a row fails: every row up to the failing one was read under the limit. */
  lemma FailedBatch(outcomes: seq<Outcome>, start: int, next: int, batch: seq<string>)
    requires 0 <= start <= next < |outcomes|
    requires NoFailureBefore(outcomes, start) && forall k :: start <= k < next ==> outcomes[k].Ok?
    requires batch == Present(outcomes[start..next]) && |Join(batch, RowSeparator)| < BatchLimit
    requires ReadUnderLimit(outcomes, start, next)
    ensures NoFailureBefore(outcomes, next)
    ensures ReadUnderLimit(outcomes, start, next + 1)
  {
    ReadUnderLimitStep(outcomes, start, next);
  }

  /** Every batch but the last stopped at the limit, since rows were left after it. */
  lemma InnerBatchesReachedLimit(outcomes: seq<Outcome>, batches: seq<seq<string>>, bounds: seq<int>, n: int)
    requires BatchBoundaries(outcomes, batches, bounds)
    requires 0 <= n <= |batches| && (n == |batches| ==> bounds[|batches|] < |outcomes|)
    ensures ReachedLimit(batches, n)
  {
    forall j | 0 <= j < n && j < |batches|
      ensures |Join(batches[j], RowSeparator)| >= BatchLimit
    {
      BoundsIncrease(outcomes, batches, bounds, j + 1);
      assert BatchSpan(outcomes, batches[j], bounds[j], bounds[j + 1]);
    }
  }

  lemma {:induction false} BoundsIncrease(outcomes: seq<Outcome>, batches: seq<seq<string>>, bounds: seq<int>, i: int)
    requires BatchBoundaries(outcomes, batches, bounds) && 0 <= i <= |batches|
    ensures i < |batches| ==> bounds[i] < bounds[|batches|]
    ensures bounds[|batches|] <= |outcomes|
    decreases |batches| - i
  {
    if i < |batches| {
      assert BatchSpan(outcomes, batches[i], bounds[i], bounds[i + 1]);
      BoundsIncrease(outcomes, batches, bounds, i + 1);
    } else if |batches| > 0 {
      assert BatchSpan(outcomes, batches[|batches| - 1], bounds[|batches| - 1], bounds[|batches|]);
    }
  }

  /** From the same first row, the inner loop stops at the same row with the same batch. */
  lemma SpanDetermined(outcomes: seq<Outcome>, batch1: seq<string>, batch2: seq<string>, lo: int, hi1: int, hi2: int)
    requires BatchSpan(outcomes, batch1, lo, hi1) && BatchSpan(outcomes, batch2, lo, hi2)
    ensures hi1 == hi2 && batch1 == batch2
  {
  }

  lemma {:induction false} SameFirstBatches(outcomes: seq<Outcome>, batches1: seq<seq<string>>, bounds1: seq<int>,
                                            batches2: seq<seq<string>>, bounds2: seq<int>, i: int)
    requires BatchBoundaries(outcomes, batches1, bounds1) && BatchBoundaries(outcomes, batches2, bounds2)
    requires 0 <= i <= |batches1| && i <= |batches2|
    ensures bounds1[..i + 1] == bounds2[..i + 1] && batches1[..i] == batches2[..i]
  {
    if i > 0 {
      SameFirstBatches(outcomes, batches1, bounds1, batches2, bounds2, i - 1);
      assert bounds1[i - 1] == bounds2[..i][i - 1];
      assert BatchSpan(outcomes, batches1[i - 1], bounds1[i - 1], bounds1[i]);
      assert BatchSpan(outcomes, batches2[i - 1], bounds2[i - 1], bounds2[i]);
      SpanDetermined(outcomes, batches1[i - 1], batches2[i - 1], bounds1[i - 1], bounds1[i], bounds2[i]);
      assert bounds1[..i + 1] == bounds1[..i] + [bounds1[i]];
      assert bounds2[..i + 1] == bounds2[..i] + [bounds2[i]];
      assert batches1[..i] == batches1[..i - 1] + [batches1[i - 1]];
      assert batches2[..i] == batches2[..i - 1] + [batches2[i - 1]];
    }
  }

  /**
   * The batching of a run in which every row converts is determined: two
   * boundary sequences that both end at the last row give the same batches.
   */
  lemma BatchesDetermined(outcomes: seq<Outcome>, batches1: seq<seq<string>>, bounds1: seq<int>,
                          batches2: seq<seq<string>>, bounds2: seq<int>)
    requires BatchBoundaries(outcomes, batches1, bounds1) && bounds1[|batches1|] == |outcomes|
    requires BatchBoundaries(outcomes, batches2, bounds2) && bounds2[|batches2|] == |outcomes|
    ensures batches1 == batches2 && bounds1 == bounds2
  {
    if |batches1| < |batches2| {
      SameFirstBatches(outcomes, batches1, bounds1, batches2, bounds2, |batches1|);
      assert bounds2[|batches1|] == bounds1[..|batches1| + 1][|batches1|];
      BoundsIncrease(outcomes, batches2, bounds2, |batches1|);
    } else if |batches2| < |batches1| {
      SameFirstBatches(outcomes, batches1, bounds1, batches2, bounds2, |batches2|);
      assert bounds1[|batches2|] == bounds2[..|batches2| + 1][|batches2|];
      BoundsIncrease(outcomes, batches1, bounds1, |batches2|);
    } else {
      SameFirstBatches(outcomes, batches1, bounds1, batches2, bounds2, |batches1|);
      assert bounds1 == bounds1[..|batches1| + 1] && bounds2 == bounds2[..|batches2| + 1];
      assert batches1 == batches1[..|batches1|] && batches2 == batches2[..|batches2|];
    }
  }

  /**
   * Sends the rows' tuples in INSERT statements, each statement the insert
   * header, a newline and a batch of tuples joined by ",\n". A row whose
   * conversion throws ends the run: the batch in progress is not sent, the
   * statements already sent stay sent.
   *
   * consumed is the number of rows whose tuples went into sent statements.
   */
  method SendInBatches(outcomes: seq<Outcome>, insertHeader: string)
    returns (batches: seq<seq<string>>, statements: seq<string>, consumed: nat, failure: Option<Failure>,
             ghost bounds: seq<int>)
    ensures consumed <= |outcomes| && NoFailureBefore(outcomes, consumed)
    ensures Concat(batches) == Present(outcomes[..consumed])
    ensures BatchBoundaries(outcomes, batches, bounds) && bounds[|batches|] == consumed
    ensures StatementsOf(statements, batches, insertHeader)
    ensures forall j :: 0 <= j < |batches| ==> FilledUnderLimit(batches[j])
    ensures ReachedLimit(batches, |batches| - 1)
    ensures failure.None? <==> consumed == |outcomes|
    ensures failure.None? ==> (|batches| == 0 <==> |outcomes| == 0)
    ensures failure.Some? ==>
      ReachedLimit(batches, |batches|) &&
      exists k :: consumed <= k < |outcomes| && outcomes[k] == Err(failure.value) &&
        NoFailureBefore(outcomes, k) &&
        ReadUnderLimit(outcomes, consumed, k + 1)
  {
    batches, statements, consumed, failure, bounds := [], [], 0, None, [0];
    while consumed < |outcomes|
      invariant consumed <= |outcomes| && NoFailureBefore(outcomes, consumed)
      invariant Concat(batches) == Present(outcomes[..consumed])
      invariant BatchBoundaries(outcomes, batches, bounds) && bounds[|batches|] == consumed
      invariant StatementsOf(statements, batches, insertHeader)
      invariant forall j :: 0 <= j < |batches| ==> FilledUnderLimit(batches[j])
      invariant |batches| == 0 <==> consumed == 0
      decreases |outcomes| - consumed
    {
      var values, joined, next, stopped := FillBatch(outcomes, consumed);
      if stopped.Some? {
        failure := stopped;
        FailedBatch(outcomes, consumed, next, values);
        InnerBatchesReachedLimit(outcomes, batches, bounds, |batches|);
        assert outcomes[next] == Err(failure.value);
        return;
      }
      AppendBatch(outcomes, batches, bounds, values, next);
      statements := statements + [insertHeader + "\n" + joined];
      batches, bounds := batches + [values], bounds + [next];
      consumed := next;
    }
    if |batches| > 0 {
      InnerBatchesReachedLimit(outcomes, batches, bounds, |batches| - 1);
    }
  }
}
