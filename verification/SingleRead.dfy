/** Reading a table whose scan selects a single partition into batches. */
module SingleRead {
  import opened Dataset
  import opened Formats
  import opened MetaScanner
  import opened Predicates
  import opened Ranges
  import opened WorkSteal

  /** Without a predicate one batch of all rows, otherwise one batch for each range a scan
      finds. The limit is not looked at. */
  method ReadSingle(d: Data, pred: Option<Predicate>, limit: Option<nat>) returns (r: Result<seq<seq<nat>>>)
    requires d.Valid()
    ensures CanScan(d, pred) ==> r.Ok?
    ensures r.Ok? ==> Flatten(r.value) == ScanRows(d, [], pred)
    ensures r.Ok? && limit.Some? ==>
              (Flatten(r.value) == Take(ScanRows(d, [], pred), limit) <==> |ScanRows(d, [], pred)| <= limit.value)
    ensures pred.None? ==> |ScanRows(d, [], pred)| == d.idx.RowCount()
  {
    hide ScanRows, Data.Valid, CanScan, RowsOf, Flatten, DatasetScanner.Remaining;
    if pred.None? {
      AllRows(d);
      if d.idx.RowCount() == 0 {
        FlattenNone<nat>();
        return Ok([]);
      }
      var batch := Span(0, d.idx.RowCount());
      FlattenNone<nat>();
      FlattenMore([], batch);
      assert [] + [batch] == [batch];
      return Ok([batch]);
    }
    var sc, rows := ScanDataset(d, [], pred, None);
    if sc.Err? { return Err(sc.error); }
    var out := DrainBatches(sc.value);
    return Ok(out);
  }

  /** One batch for every range handed out. */
  method DrainBatches(scanner: DatasetScanner) returns (out: seq<seq<nat>>)
    modifies scanner
    ensures Flatten(out) == old(scanner.Remaining())
  {
    hide Flatten, DatasetScanner.Remaining;
    out := [];
    FlattenNone<nat>();
    ghost var all := scanner.Remaining();
    while true
      invariant Flatten(out) + scanner.Remaining() == all
      decreases |scanner.ranges|
    {
      ghost var before, left := Flatten(out), scanner.Remaining();
      var next := scanner.Next();
      if next.None? { break; }
      var batch := Span(next.value.offset, next.value.length);
      FlattenMore(out, batch);
      out := out + [batch];
      assert before + (batch + scanner.Remaining()) == Flatten(out) + scanner.Remaining();
    }
  }

  /** A scan without a predicate finds every row. */
  lemma AllRows(d: Data)
    requires d.Valid()
    ensures ScanRows(d, [], None) == Span(0, d.idx.RowCount())
  {
    var all := Span(0, d.idx.RowCount());
    forall row: nat
      ensures row in all <==> Reached(d, [], None, [], row)
    {
      if row < d.idx.RowCount() { assert all[row] == row; }
    }
    ScanRowsAre(d, [], None, [], all);
  }

  /** Two rows come out where one was asked for. */
  method OneAskedTwoRead() returns (r: Result<seq<seq<nat>>>)
    ensures r.Ok? && Flatten(r.value) == [0, 1]
  {
    hide ScanRows, Flatten;
    TwoSymsValid();
    var d := Data(TWO_SYMS, map[]);
    AllRows(d);
    assert Span(0, 2) == [0, 1];
    r := ReadSingle(d, None, Some(1));
  }
}
