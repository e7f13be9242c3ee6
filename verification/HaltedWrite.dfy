/** A table write stopped by a NULL for a column without room for it: what stays written,
    what does not, and a table that is left half written. */
module HaltedWrite {
  import opened Formats
  import opened Meta
  import opened MetaLocate
  import opened Order
  import opened Partitions
  import opened Ranges
  import opened Runs
  import opened Spans
  import opened WriteTable

  /** The rows of the first writes come first. */
  lemma {:induction false} PrefixRows(ws: seq<Write>, k: nat)
    requires k <= |ws|
    ensures GridRows(ws[..k]) <= GridRows(ws) && InputRows(ws[..k]) <= InputRows(ws)
  {
    if k < |ws| {
      PrefixRows(ws[..|ws| - 1], k);
      assert ws[..|ws| - 1][..k] == ws[..k];
    } else {
      assert ws[..k] == ws;
    }
  }

  /** A column of the halted partition holds the input's cells at the rows of the slices it
      took, and its old cells elsewhere. */
  lemma TakenExact(was: Part, now: Part, inp: Input, ws: seq<Write>, at: nat, done: set<string>, f: string)
    requires was.Valid() && inp.Shaped() && inp.cols.Keys <= was.cols.Keys && WritesFit(ws, was.idx.RowCount(), |inp.times|)
    requires Increasing(GridRows(ws)) && Halted(was, now, inp, ws, at, done) && f in inp.cols
    ensures var some := ws[..Taken(at, done, f)];
            && |now.cols[f].cells| == |was.cols[f].cells| && |GridRows(some)| == |InputRows(some)|
            && (forall k :: 0 <= k < |GridRows(some)| ==>
                  && GridRows(some)[k] < |now.cols[f].cells| && InputRows(some)[k] < |inp.times|
                  && now.cols[f].cells[GridRows(some)[k]] == inp.cols[f].cells[InputRows(some)[k]])
            && forall g: nat :: g < |was.cols[f].cells| && g !in GridRows(some) ==> now.cols[f].cells[g] == was.cols[f].cells[g]
  {
    hide Overlaid, GridRows, InputRows, Refuses, LexIncreasing;
    var k := Taken(at, done, f);
    assert ColumnHalted(was, now, inp, ws, at, done, f);
    PrefixFits(ws, k, was.idx.RowCount(), |inp.times|);
    PrefixRows(ws, k);
    OverlaidExact(was.cols[f].cells, inp.cols[f].cells, ws[..k]);
  }

  /** A cell after a stopped write: its old content, or that of the input row with its key. */
  ghost predicate OldOrNew(was: Parts, now: Parts, inp: Input, scheme: Scheme, tt: TimeType, n: Name, f: string, g: nat)
    requires PartsValid(was) && inp.Shaped() && n in was && n in now && f in was[n].cols && f in now[n].cols
    requires g < |was[n].cols[f].cells| == |now[n].cols[f].cells|
  {
    || now[n].cols[f].cells[g] == was[n].cols[f].cells[g]
    || (f in inp.cols && exists i: nat :: Hits(was, inp, scheme, tt, n, g, i) && now[n].cols[f].cells[g] == inp.cols[f].cells[i])
  }

  /** Nothing but old cells and the input's own cells at their keys is ever in the table. */
  lemma StoppedCells(was: Parts, now: Parts, inp: Input, scheme: Scheme, tt: TimeType, h: Halt, n: Name, f: string, g: nat)
    requires PartsValid(was) && inp.Shaped() && forall m :: m in was ==> inp.cols.Keys <= was[m].cols.Keys
    requires HaltedTable(was, now, inp, scheme, tt, h) && n in was && f in was[n].cols && g < |was[n].cols[f].cells|
    ensures n in now && f in now[n].cols && |now[n].cols[f].cells| == |was[n].cols[f].cells|
    ensures OldOrNew(was, now, inp, scheme, tt, n, f, g)
  {
    hide PartitionName, SpansOf, PlanOk, Halted, PartRight, Part.Valid, OldOrNew;
    assert SamePart(was[n], now[n]) && SameCol(was[n].cols[f], now[n].cols[f]);
    if n in h.written {
      WrittenCell(was, now, inp, scheme, tt, n, f, g);
    } else if n == h.name {
      HaltedCell(was, now, inp, scheme, tt, h, f, g);
    } else {
      OldCell(was, now, inp, scheme, tt, n, f, g);
    }
  }

  lemma OldCell(was: Parts, now: Parts, inp: Input, scheme: Scheme, tt: TimeType, n: Name, f: string, g: nat)
    requires PartsValid(was) && inp.Shaped() && n in was && n in now && now[n] == was[n] && f in was[n].cols && g < |was[n].cols[f].cells|
    ensures OldOrNew(was, now, inp, scheme, tt, n, f, g)
  {
    hide PartitionName, Hits, Part.Valid;
  }

  lemma WrittenCell(was: Parts, now: Parts, inp: Input, scheme: Scheme, tt: TimeType, n: Name, f: string, g: nat)
    requires PartsValid(was) && inp.Shaped() && n in was && n in now && SamePart(was[n], now[n])
    requires PartRight(was, now, inp, scheme, tt, n) && f in was[n].cols && g < |was[n].cols[f].cells| == |now[n].cols[f].cells|
    ensures OldOrNew(was, now, inp, scheme, tt, n, f, g)
  {
    hide Hits, Part.Valid;
    assert CellRight(was, now, inp, scheme, tt, n, f, g);
    if f in inp.cols && Touched(was, inp, scheme, tt, n, g) { var i: nat :| Hits(was, inp, scheme, tt, n, g, i); }
  }

  lemma HaltedCell(was: Parts, now: Parts, inp: Input, scheme: Scheme, tt: TimeType, h: Halt, f: string, g: nat)
    requires PartsValid(was) && inp.Shaped() && forall m :: m in was ==> inp.cols.Keys <= was[m].cols.Keys
    requires HaltedTable(was, now, inp, scheme, tt, h) && f in was[h.name].cols && g < |was[h.name].cols[f].cells|
    requires f in now[h.name].cols && |now[h.name].cols[f].cells| == |was[h.name].cols[f].cells|
    ensures OldOrNew(was, now, inp, scheme, tt, h.name, f, g)
  {
    hide PartitionName, SpansOf, GridRows, InputRows, RunRows, PlanOk, Halted, PartRight, Part.Valid, Hits,
         Increasing, WritesFit;
    var n := h.name;
    PlanIsFit(was[n], inp, h.spans[n], h.ws);
    PlanRises(was[n], inp, h.spans[n], h.ws);
    if f in inp.cols {
      HaltedBounds(was[n], now[n], inp, h.ws, h.at, h.cols);
      TakenExact(was[n], now[n], inp, h.ws, h.at, h.cols, f);
      var k := Taken(h.at, h.cols, f);
      PrefixRows(h.ws, k);
      if g in GridRows(h.ws[..k]) {
        var q :| 0 <= q < |GridRows(h.ws[..k])| && GridRows(h.ws[..k])[q] == g;
        PlannedHit(was, inp, scheme, tt, h.spans, n, h.ws, q);
      }
    } else {
      HaltedOther(was[n], now[n], inp, h.ws, h.at, h.cols, f);
    }
  }

  lemma HaltedBounds(was: Part, now: Part, inp: Input, ws: seq<Write>, at: nat, done: set<string>)
    requires was.Valid() && inp.Shaped() && inp.cols.Keys <= was.cols.Keys && PlanFits(was, inp, ws)
    requires Halted(was, now, inp, ws, at, done)
    ensures at < |ws|
  {
  }

  lemma HaltedOther(was: Part, now: Part, inp: Input, ws: seq<Write>, at: nat, done: set<string>, f: string)
    requires was.Valid() && inp.Shaped() && inp.cols.Keys <= was.cols.Keys && WritesFit(ws, was.idx.RowCount(), |inp.times|)
    requires Halted(was, now, inp, ws, at, done) && f in was.cols && f !in inp.cols
    ensures now.cols[f] == was.cols[f]
  {
    hide Overlaid, Refuses;
    assert ColumnHalted(was, now, inp, ws, at, done, f);
  }

  // ----- a table left half written

  /** Three symbols, one time, and a column without room for NULLs. */
  const GRID: Index := Index(TimeType.Date32, [5], [[65], [66], [67]], [SymRecord(0, 1, 0), SymRecord(0, 1, 1), SymRecord(0, 1, 2)])

  const STORED: Part := Part(GRID, map["f" := Col(Int8, false, [Some([1]), Some([1]), Some([1])])])

  /** New cells for the first and the third symbol, the second of them NULL. */
  const ROWS: Input := Input([Some([65]), Some([67])], [5, 5], map["f" := InCol(Int8, [Some([9]), None])])

  const SPANS: Buckets := map[NoName := [Run(0, 2)]]

  lemma GridValid()
    ensures STORED.Valid() && GRID.Valid() && |GRID.recs| == 3
  {
    assert LexLess([65], [66]) && LexLess([66], [67]);
  }

  lemma GridIs()
    ensures STORED.Valid() && ROWS.Shaped() && GRID.RowCount() == 3 && |GRID.Rows()| == 3
    ensures GRID.Rows()[0] == Row([65], 5) && GRID.Rows()[1] == Row([66], 5) && GRID.Rows()[2] == Row([67], 5)
  {
    hide Index.Rows, Index.Valid, Part.Valid, LexIncreasing;
    GridValid();
    RowAt(GRID, 0, 0);
    RowAt(GRID, 1, 0);
    RowAt(GRID, 2, 0);
  }

  /** Two equal keys make one run. */
  lemma OneRun(keys: seq<int>)
    requires |keys| == 2 && keys[0] == keys[1]
    ensures RunsUpTo(keys, 2) == [Run(0, 2)]
  {
    assert RunsUpTo(keys, 0) == [];
    assert RunsUpTo(keys, 1) == [Run(0, 1)];
  }

  lemma OneName(times: seq<int>, n: Name)
    requires |times| > 0
    ensures RunsNamed(Unpartitioned, times, TimeType.Date32, [Run(0, 2)], n) == if n == NoName then [Run(0, 2)] else []
  {
    assert [Run(0, 2)][..0] == [];
    assert RunsNamed(Unpartitioned, times, TimeType.Date32, [], n) == [];
  }

  lemma SpansAre()
    ensures SpansOf(Unpartitioned, ROWS.times, TimeType.Date32, SPANS)
  {
    hide RunsUpTo, RunsNamed, PartitionName;
    OneRun(Keys(Unpartitioned, ROWS.times, TimeType.Date32));
    forall n ensures RunsNamed(Unpartitioned, ROWS.times, TimeType.Date32, [Run(0, 2)], n) == if n == NoName then [Run(0, 2)] else [] {
      OneName(ROWS.times, n);
    }
  }

  lemma RowsAre()
    ensures RunRows([Run(0, 2)]) == [0, 1]
  {
    assert [Run(0, 2)][..0] == [] && RunRows([]) == [];
    assert Span(0, 2) == [0, 1];
  }

  lemma KeysFound()
    requires STORED.Valid() && ROWS.Shaped() && |GRID.Rows()| == 3
    requires GRID.Rows()[0] == Row([65], 5) && GRID.Rows()[2] == Row([67], 5)
    ensures StrictlySorted(ROWS.syms, ROWS.times) && Locatable(GRID, ROWS, [Run(0, 2)])
  {
    hide Index.Rows;
    RowsAre();
    assert LexLess([65], [67]);
    assert Present(GRID, ROWS.KeyAt(0)) && Present(GRID, ROWS.KeyAt(1));
  }

  /** Any plan for these rows puts row 0 at grid row 0 in one slice and row 1 at grid row 2
      in another. */
  lemma PlanIs(ws: seq<Write>, at: nat)
    requires STORED.Valid() && ROWS.Shaped() && GRID.RowCount() == 3 && |GRID.Rows()| == 3
    requires GRID.Rows()[0] == Row([65], 5) && GRID.Rows()[1] == Row([66], 5) && GRID.Rows()[2] == Row([67], 5)
    requires PlanOk(STORED, ROWS, [Run(0, 2)], ws) && at < |ws| && ws[at].start <= 1 < ws[at].start + ws[at].len
    ensures InputRows(ws[..at]) == [0] && GridRows(ws[..at]) == [0]
  {
    hide Index.Rows, GridRows, InputRows, RunRows;
    RowsAre();
    assert GRID.Rows()[GridRows(ws)[0]] == RowOfKey(ROWS.KeyAt(0)) && GRID.Rows()[GridRows(ws)[1]] == RowOfKey(ROWS.KeyAt(1));
    GridDistinct(GRID, GridRows(ws)[0], 0);
    GridDistinct(GRID, GridRows(ws)[1], 2);
    PrefixRows(ws, at + 1);
    PrefixRows(ws, at);
    var w := ws[at];
    assert ws[..at + 1] == ws[..at] + [w];
    WritesMore(ws[..at], w);
    WritesPaired(ws[..at]);
    var p := |InputRows(ws[..at])|;
    var q := 1 - w.start;
    assert InputRows(ws[..at + 1])[p + q] == 1;
    assert p + q == 1;
    assert GridRows(ws[..at + 1])[p] == w.grid && GridRows(ws[..at + 1])[p + q] == w.grid + q;
    assert GridRows(ws)[p] == w.grid && GridRows(ws)[1] == w.grid + q;
  }

  /** The write is refused, yet the first symbol's cell is the new one: the NULL is only met
      in the second slice. */
  method HalfWritten() returns (t: TableHandle, r: Result<()>)
    ensures r.Err? && t.parts.Keys == {NoName} && t.parts[NoName].cols.Keys == {"f"}
    ensures t.parts[NoName].cols["f"].cells == [Some([9]), Some([1]), Some([1])]
  {
    hide PartsValid, HaltedTable, Updated, NullsFit, TableHandle.Accepts, TableHandle.TypesMatch, Input.Shaped,
         Part.Valid, PartitionName;
    GridIs();
    t := new TableHandle(map[NoName := STORED], Unpartitioned, TimeType.Date32, true);
    Ready(t);
    ghost var was := t.parts;
    ghost var h;
    r, h := t.Write(ROWS);
    Stopped(was, t.parts, h.value);
  }

  /** The write is one that reaches the write phase, where a NULL has no room. */
  lemma Ready(t: TableHandle)
    requires t.parts == map[NoName := STORED] && t.scheme == Unpartitioned && t.tt == TimeType.Date32
    ensures PartsValid(t.parts) && ROWS.Shaped() && ROWS.SignedTimes()
    ensures forall i :: 0 <= i < |ROWS.times| ==> PartitionName(Unpartitioned, ROWS.times[i], TimeType.Date32) in t.parts
    ensures forall n :: n in t.parts ==> ROWS.cols.Keys <= t.parts[n].cols.Keys
    ensures t.Accepts(ROWS) && t.TypesMatch(ROWS) && !NullsFit(t.parts, ROWS, Unpartitioned, TimeType.Date32)
  {
    hide Index.Rows, Locatable, StrictlySorted, SpansOf, Index.Valid, LexIncreasing, Part.Valid;
    GridIs();
    SpansAre();
    KeysFound();
    assert AllLocatable(t.parts, ROWS, SPANS);
    NoRoom(t.parts);
  }

  lemma NoRoom(ps: Parts)
    requires ps == map[NoName := STORED] && ROWS.Shaped()
    requires forall i :: 0 <= i < |ROWS.times| ==> PartitionName(Unpartitioned, ROWS.times[i], TimeType.Date32) in ps
    requires forall n :: n in ps ==> ROWS.cols.Keys <= ps[n].cols.Keys
    ensures !NullsFit(ps, ROWS, Unpartitioned, TimeType.Date32)
  {
    assert "f" in ROWS.cols && PartitionName(Unpartitioned, ROWS.times[1], TimeType.Date32) == NoName;
    assert !Fits(ps[PartitionName(Unpartitioned, ROWS.times[1], TimeType.Date32)].cols["f"], ROWS.cols["f"].cells[1]);
  }

  lemma Stopped(was: Parts, now: Parts, h: Halt)
    requires was == map[NoName := STORED] && PartsValid(was) && ROWS.Shaped() && forall n :: n in was ==> ROWS.cols.Keys <= was[n].cols.Keys
    requires HaltedTable(was, now, ROWS, Unpartitioned, TimeType.Date32, h)
    ensures now.Keys == {NoName} && now[NoName].cols.Keys == {"f"}
    ensures now[NoName].cols["f"].cells == [Some([9]), Some([1]), Some([1])]
  {
    hide Index.Rows, PlanOk, SpansOf, RunRows, GridRows, InputRows, Overlaid, Index.Valid, LexIncreasing;
    GridIs();
    SpansAre();
    SpansUnique(was, ROWS, Unpartitioned, TimeType.Date32, SPANS);
    PlanIsFit(STORED, ROWS, [Run(0, 2)], h.ws);
    assert Refuses(STORED.cols["f"], ROWS.cols["f"], h.ws[h.at]) && "f" !in h.cols;
    PlanIs(h.ws, h.at);
    PlanRises(STORED, ROWS, [Run(0, 2)], h.ws);
    TakenExact(STORED, now[NoName], ROWS, h.ws, h.at, h.cols, "f");
    var cells := now[NoName].cols["f"].cells;
    assert Taken(h.at, h.cols, "f") == h.at;
    assert cells[GridRows(h.ws[..h.at])[0]] == ROWS.cols["f"].cells[InputRows(h.ws[..h.at])[0]];
    assert 1 !in GridRows(h.ws[..h.at]) && 2 !in GridRows(h.ws[..h.at]);
    assert cells[1] == Some([1]) && cells[2] == Some([1]);
  }

  lemma PlanRises(part: Part, inp: Input, runs: seq<Run>, ws: seq<Write>)
    requires part.Valid() && inp.Shaped() && PlanOk(part, inp, runs, ws)
    ensures Increasing(GridRows(ws))
  {
  }
}
