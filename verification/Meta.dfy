/** The capacity-grid index: one shared time axis, one dictionary of symbols, and
    per symbol a slice of the axis and the first row it owns. */
module Meta {
  import opened Bits
  import opened Formats
  import opened Order

  datatype TimeType = Date32 | TimestampUs {
    function SizeOf(): (s: nat)
      ensures s == 4 || s == 8
    {
      if Date32? then 4 else 8
    }

    /** Time cells are compared as unsigned patterns of their width. */
    function Bound(): nat { if Date32? then TWO_32 else TWO_64 }
  }

  datatype SymRecord = SymRecord(timeStart: nat, timeCount: nat, rowStart: nat) {
    predicate ContainsTime(t: nat) { timeStart <= t < timeStart + timeCount }

    function GlobalRow(t: nat): Option<nat> {
      if ContainsTime(t) then Some(rowStart + (t - timeStart)) else None
    }

    function RowEnd(): nat { rowStart + timeCount }
  }

  datatype Row = Row(sym: Str, time: nat)

  datatype Index = Index(tt: TimeType, axis: seq<nat>, names: seq<Str>, recs: seq<SymRecord>) {
    function RowCount(): nat {
      if recs == [] then 0 else recs[|recs| - 1].RowEnd()
    }

    /** The layout every index file has: an increasing axis and adjoining row blocks. */
    ghost predicate Valid() {
      && |names| == |recs|
      && Increasing(axis)
      && (forall i :: 0 <= i < |axis| ==> axis[i] < tt.Bound())
      && (recs != [] ==> recs[0].rowStart == 0)
      && (forall j :: 0 < j < |recs| ==> recs[j].rowStart == recs[j - 1].RowEnd())
      && (forall j :: 0 <= j < |recs| ==> recs[j].timeCount > 0 && recs[j].timeStart + recs[j].timeCount <= |axis|)
    }

    /** The rows of the first `n` symbols. */
    ghost function RowsUpTo(n: nat): seq<Row>
      requires Valid() && n <= |recs|
    {
      if n == 0 then [] else RowsUpTo(n - 1) + SymRows(n - 1, 0, recs[n - 1].timeCount)
    }

    /** `len` rows of symbol `j` from its row `from` on. */
    ghost function SymRows(j: nat, from: nat, len: nat): (r: seq<Row>)
      requires Valid() && j < |recs| && from + len <= recs[j].timeCount
      ensures |r| == len
      ensures forall i :: 0 <= i < len ==> r[i] == Row(names[j], axis[recs[j].timeStart + from + i])
    {
      seq(len, i requires 0 <= i < len => Row(names[j], axis[recs[j].timeStart + from + i]))
    }

    /** The grid, row by row. */
    ghost function Rows(): seq<Row>
      requires Valid()
    {
      RowsUpTo(|recs|)
    }
  }

  // ----- the grid as a list

  lemma {:induction false} RowsUpToLength(idx: Index, n: nat)
    requires idx.Valid() && n <= |idx.recs|
    ensures |idx.RowsUpTo(n)| == if n == 0 then 0 else idx.recs[n - 1].RowEnd()
  {
    if n > 0 { RowsUpToLength(idx, n - 1); }
  }

  lemma LastBlock(idx: Index, n: nat)
    requires idx.Valid() && n < |idx.recs|
    ensures idx.recs[n].rowStart == if n == 0 then 0 else idx.recs[n - 1].RowEnd()
    ensures |idx.names| == |idx.recs| && idx.recs[n].timeStart + idx.recs[n].timeCount <= |idx.axis|
  {
  }

  lemma {:induction false} RowsUpToAt(idx: Index, n: nat, j: nat, k: nat)
    requires idx.Valid() && j < n <= |idx.recs| && k < idx.recs[j].timeCount
    ensures idx.recs[j].rowStart + k < |idx.RowsUpTo(n)|
    ensures idx.RowsUpTo(n)[idx.recs[j].rowStart + k] == Row(idx.names[j], idx.axis[idx.recs[j].timeStart + k])
  {
    hide Index.Valid;
    RowsUpToLength(idx, n - 1);
    LastBlock(idx, n - 1);
    var before, block := idx.RowsUpTo(n - 1), idx.SymRows(n - 1, 0, idx.recs[n - 1].timeCount);
    var i := idx.recs[j].rowStart + k;
    assert idx.RowsUpTo(n) == before + block;
    if j < n - 1 {
      RowsUpToAt(idx, n - 1, j, k);
      assert (before + block)[i] == before[i];
    } else {
      assert (before + block)[i] == block[k];
    }
  }

  /** Row `rowStart + k` of symbol `j` holds the symbol's `k`-th time. */
  lemma RowAt(idx: Index, j: nat, k: nat)
    requires idx.Valid() && j < |idx.recs| && k < idx.recs[j].timeCount
    ensures |idx.Rows()| == idx.RowCount()
    ensures idx.recs[j].rowStart + k < idx.RowCount()
    ensures idx.Rows()[idx.recs[j].rowStart + k] == Row(idx.names[j], idx.axis[idx.recs[j].timeStart + k])
  {
    RowsUpToLength(idx, |idx.recs|);
    RowsUpToAt(idx, |idx.recs|, j, k);
  }

  lemma {:induction false} BlocksOrdered(idx: Index, i: nat, j: nat)
    requires idx.Valid() && i < j < |idx.recs|
    ensures idx.recs[i].RowEnd() <= idx.recs[j].rowStart
  {
    if i + 1 < j { BlocksOrdered(idx, i, j - 1); }
  }

  /** A row belongs to one symbol only. */
  lemma BlockUnique(idx: Index, i: nat, j: nat, row: nat)
    requires idx.Valid() && i < |idx.recs| && j < |idx.recs|
    requires idx.recs[i].rowStart <= row < idx.recs[i].RowEnd()
    requires idx.recs[j].rowStart <= row < idx.recs[j].RowEnd()
    ensures i == j
  {
    if i < j { BlocksOrdered(idx, i, j); }
    if j < i { BlocksOrdered(idx, j, i); }
  }

  // ----- locating a row

  /** The last symbol whose block starts at or before `row`, by bisection. */
  method SymAtOrBefore(idx: Index, row: nat) returns (j: nat)
    requires idx.Valid() && row < idx.RowCount()
    ensures j < |idx.recs| && idx.recs[j].rowStart <= row < idx.recs[j].RowEnd()
  {
    var lo, hi := 0, |idx.recs|;
    while lo + 1 < hi
      invariant 0 <= lo < hi <= |idx.recs|
      invariant idx.recs[lo].rowStart <= row
      invariant hi < |idx.recs| ==> row < idx.recs[hi].rowStart
    {
      var mid := (lo + hi) / 2;
      if idx.recs[mid].rowStart <= row { lo := mid; } else { hi := mid; }
    }
    j := lo;
  }

  /** Row to `(symbol, axis position)`, the inverse of `GlobalRow`. */
  method LocateRow(idx: Index, row: nat) returns (r: Result<(nat, nat)>)
    requires idx.Valid()
    ensures r.Ok? <==> row < idx.RowCount()
    ensures r.Ok? ==>
              var (j, t) := r.value;
              && j < |idx.recs|
              && idx.recs[j].GlobalRow(t) == Some(row)
              && (forall i, u: nat :: 0 <= i < |idx.recs| && idx.recs[i].GlobalRow(u) == Some(row) ==> i == j && u == t)
              && t < |idx.axis|
              && |idx.Rows()| == idx.RowCount()
              && idx.Rows()[row] == Row(idx.names[j], idx.axis[t])
  {
    if row >= idx.RowCount() { return Err(Invalid); }
    var j := SymAtOrBefore(idx, row);
    var t := idx.recs[j].timeStart + (row - idx.recs[j].rowStart);
    RowAt(idx, j, row - idx.recs[j].rowStart);
    forall i, u: nat | 0 <= i < |idx.recs| && idx.recs[i].GlobalRow(u) == Some(row)
      ensures i == j && u == t
    {
      BlockUnique(idx, i, j, row);
    }
    return Ok((j, t));
  }

  // ----- reading a row range

  /** A piece of the answer: one symbol repeated over consecutive times. */
  datatype Segment = Segment(sym: nat, timeStart: nat, rows: nat)

  ghost function SegmentRows(idx: Index, s: Segment): (r: seq<Row>)
    requires s.sym < |idx.names| && s.timeStart + s.rows <= |idx.axis|
    ensures |r| == s.rows
  {
    seq(s.rows, i requires 0 <= i < s.rows => Row(idx.names[s.sym], idx.axis[s.timeStart + i]))
  }

  ghost predicate SegmentsFit(idx: Index, segs: seq<Segment>) {
    forall s :: s in segs ==> s.sym < |idx.names| && s.timeStart + s.rows <= |idx.axis|
  }

  ghost function Flatten(idx: Index, segs: seq<Segment>): seq<Row>
    requires SegmentsFit(idx, segs)
  {
    if segs == [] then [] else Flatten(idx, segs[..|segs| - 1]) + SegmentRows(idx, segs[|segs| - 1])
  }

  lemma FlattenMore(idx: Index, segs: seq<Segment>, s: Segment)
    requires SegmentsFit(idx, segs) && s.sym < |idx.names| && s.timeStart + s.rows <= |idx.axis|
    ensures SegmentsFit(idx, segs + [s])
    ensures Flatten(idx, segs + [s]) == Flatten(idx, segs) + SegmentRows(idx, s)
  {
    assert (segs + [s])[..|segs|] == segs;
  }

  /** A slice of the grid inside one symbol's block. */
  lemma BlockSlice(idx: Index, j: nat, lo: nat, hi: nat)
    requires idx.Valid() && j < |idx.recs|
    requires idx.recs[j].rowStart <= lo <= hi <= idx.recs[j].RowEnd()
    ensures hi <= |idx.Rows()|
    ensures idx.Rows()[lo..hi]
         == SegmentRows(idx, Segment(j, idx.recs[j].timeStart + (lo - idx.recs[j].rowStart), hi - lo))
  {
    RowsUpToLength(idx, |idx.recs|);
    if j < |idx.recs| - 1 { BlocksOrdered(idx, j, |idx.recs| - 1); }
    var s := SegmentRows(idx, Segment(j, idx.recs[j].timeStart + (lo - idx.recs[j].rowStart), hi - lo));
    forall i | 0 <= i < hi - lo
      ensures idx.Rows()[lo + i] == s[i]
    {
      RowAt(idx, j, lo + i - idx.recs[j].rowStart);
    }
  }

  lemma FlattenNone(idx: Index)
    ensures SegmentsFit(idx, []) && Flatten(idx, []) == []
  {
  }

  /** Rows `[offset, offset + length)` as segments, symbol by symbol. */
  method ReadIndex(idx: Index, offset: nat, length: nat) returns (r: Result<seq<Segment>>)
    requires idx.Valid()
    ensures r.Ok? <==> offset + length <= idx.RowCount()
    ensures r.Ok? ==> SegmentsFit(idx, r.value)
    ensures r.Ok? ==> |idx.Rows()| == idx.RowCount() && Flatten(idx, r.value) == idx.Rows()[offset..offset + length]
  {
    hide Flatten, SegmentRows, Index.RowsUpTo, Index.Rows;
    GridLength(idx);
    FlattenNone(idx);
    if offset + length > idx.RowCount() { return Err(Invalid); }
    if length == 0 { return Ok([]); }
    var end := offset + length;
    var sym := SymAtOrBefore(idx, offset);
    var segs := [];
    ghost var at := offset;
    while sym < |idx.recs|
      invariant 0 <= sym <= |idx.recs|
      invariant offset <= at <= end && (at < end ==> Reading(idx, sym, offset, at))
      invariant at == end && sym < |idx.recs| ==> end <= idx.recs[sym].rowStart
      invariant SegmentsFit(idx, segs) && Flatten(idx, segs) == idx.Rows()[offset..at]
    {
      var rec := idx.recs[sym];
      var lo := if offset > rec.rowStart then offset else rec.rowStart;
      var hi := if end < rec.RowEnd() then end else rec.RowEnd();
      if lo >= hi {
        if rec.rowStart >= end { break; }
        sym := sym + 1;
        continue;
      }
      var seg := Segment(sym, rec.timeStart + (lo - rec.rowStart), hi - lo);
      BlockSlice(idx, sym, lo, hi);
      FlattenMore(idx, segs, seg);
      assert idx.Rows()[offset..hi] == idx.Rows()[offset..lo] + idx.Rows()[lo..hi];
      segs, at := segs + [seg], hi;
      sym := sym + 1;
    }
    return Ok(segs);
  }

  /** The cursor stands on the symbol holding row `at`, at its start unless just begun. */
  ghost predicate Reading(idx: Index, sym: nat, offset: nat, at: nat) {
    && sym < |idx.recs|
    && idx.recs[sym].rowStart <= at < idx.recs[sym].RowEnd()
    && (at == offset || idx.recs[sym].rowStart == at)
  }

  lemma GridLength(idx: Index)
    requires idx.Valid()
    ensures |idx.Rows()| == idx.RowCount()
  {
    RowsUpToLength(idx, |idx.recs|);
  }
}
