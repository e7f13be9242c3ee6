/** Scanning one field: candidate ranges, evaluated a bounded stretch at a time, handed
    out as runs of matching rows, resumable between calls and cut by a limit. */
module FieldScan {
  import opened Bits
  import opened Bitmap
  import opened Cells
  import opened Columns
  import opened FieldEval
  import opened FieldFiles
  import opened FieldHandles
  import opened Formats
  import opened MaskRuns
  import opened Order
  import opened Predicates
  import opened Ranges

  const EVAL_CAP := 0x10_0000

  /** What is scanned: a field's values and validity, and the condition. */
  datatype Source = Source(dt: DataType, values: seq<byte>, raw: Option<seq<byte>>, rows: nat, pred: Option<Predicate>) {
    predicate Valid() {
      && |values| == rows * dt.SizeOf()
      && (raw.Some? ==> rows <= 8 * |raw.value|)
    }

    predicate IsRowValid(row: nat)
      requires Valid() && row < rows
    {
      raw.Some? ==> BitAt(raw.value, row)
    }

    /** A row matches when it is not NULL and its value satisfies the predicate. */
    predicate Matches(row: nat)
      requires Valid() && row < rows
    {
      IsRowValid(row) && (pred.Some? ==> EvalValue(pred.value, RowValue(dt, values, rows, row)))
    }

    predicate Compatible() { pred.Some? ==> FieldEval.Compatible(dt, pred.value) }

    /** The matching ones of a list of rows, in the same order. */
    function Filter(list: seq<nat>): (r: seq<nat>)
      requires Valid()
    {
      if list == [] then [] else
        var last := list[|list| - 1];
        Filter(list[..|list| - 1]) + (if last < rows && Matches(last) then [last] else [])
    }
  }

  lemma {:induction false} FilterAppend(src: Source, a: seq<nat>, b: seq<nat>)
    requires src.Valid()
    ensures src.Filter(a + b) == src.Filter(a) + src.Filter(b)
  {
    hide Source.Matches;
    if b == [] {
      assert a + b == a;
    } else {
      var m := |b| - 1;
      assert (a + b)[..|a + b| - 1] == a + b[..m];
      FilterAppend(src, a, b[..m]);
    }
  }

  lemma {:induction false} FilterNone(src: Source, a: seq<nat>)
    requires src.Valid() && forall i :: 0 <= i < |a| ==> !(a[i] < src.rows && src.Matches(a[i]))
    ensures src.Filter(a) == []
  {
    hide Source.Matches;
    if a != [] { FilterNone(src, a[..|a| - 1]); }
  }

  lemma {:induction false} FilterAll(src: Source, a: seq<nat>)
    requires src.Valid() && forall i :: 0 <= i < |a| ==> a[i] < src.rows && src.Matches(a[i])
    ensures src.Filter(a) == a
  {
    hide Source.Matches;
    if a != [] { FilterAll(src, a[..|a| - 1]); }
  }

  /** Rows `[lo, hi)`, none if `hi <= lo`. */
  function From(lo: nat, hi: nat): (r: seq<nat>)
  {
    Span(lo, if hi > lo then hi - lo else 0)
  }

  lemma FromSplit(lo: nat, mid: nat, hi: nat)
    requires lo <= mid <= hi
    ensures From(lo, hi) == From(lo, mid) + From(mid, hi)
  {
  }

  /** Rows not yet looked at: the rest of range `i` from `at`, then the later ranges. */
  ghost function LeftOf(ranges: seq<RowRange>, i: nat, at: nat): seq<nat>
    requires i <= |ranges|
  {
    if i == |ranges| then [] else
      From(if at > ranges[i].offset then at else ranges[i].offset, ranges[i].End()) + RowsOf(ranges[i + 1..])
  }

  /** Moves a cursor to the next row of the ranges. */
  method Seek(ranges: seq<RowRange>, from: nat, at: nat) returns (i: nat, row: nat)
    requires from <= |ranges|
    ensures i <= |ranges| && LeftOf(ranges, i, row) == LeftOf(ranges, from, at)
    ensures i < |ranges| ==> ranges[i].offset <= row < ranges[i].End()
  {
    hide RowsOf, From;
    i, row := from, at;
    while true
      invariant i <= |ranges| && LeftOf(ranges, i, row) == LeftOf(ranges, from, at)
      decreases |ranges| - i
    {
      if i >= |ranges| { return; }
      var range := ranges[i];
      if row < range.offset { row := range.offset; }
      if row < range.End() { return; }
      NextRange(ranges, i, row);
      i, row := i + 1, 0;
    }
  }

  /** A used-up range leaves exactly the later ones. */
  lemma NextRange(ranges: seq<RowRange>, i: nat, row: nat)
    requires i < |ranges| && row >= ranges[i].End()
    ensures LeftOf(ranges, i, row) == LeftOf(ranges, i + 1, 0)
  {
    hide RowsOf;
    if i + 1 < |ranges| {
      RowsOfHead(ranges, i + 1);
    } else {
      assert ranges[i + 1..] == [];
      RowsOfEmpty();
    }
  }

  class FieldScanner {
    const src: Source
    const ranges: seq<RowRange>
    var remaining: Option<nat>
    var rangeIndex: nat
    var row: nat
    var mask: seq<nat>
    var maskRows: nat
    var maskPos: nat
    var done: bool

    constructor (src: Source, ranges: seq<RowRange>, limit: Option<nat>)
      requires src.Valid() && forall i :: 0 <= i < |ranges| ==> ranges[i].End() <= src.rows
      ensures Valid() && this.src == src && !done && remaining == limit
      ensures Remaining() == Take(src.Filter(RowsOf(ranges)), limit)
    {
      this.src, this.ranges, this.remaining := src, ranges, limit;
      rangeIndex, row, mask, maskRows, maskPos, done := 0, 0, [], 0, 0, false;
      new;
      LeftAtStart();
    }

    ghost predicate Valid()
      reads this
    {
      && src.Valid() && rangeIndex <= |ranges| && maskPos <= maskRows
      && (forall i :: 0 <= i < |ranges| ==> ranges[i].End() <= src.rows)
      && (maskRows > 0 ==>
            && rangeIndex < |ranges| && ranges[rangeIndex].offset <= row && row + maskRows <= ranges[rangeIndex].End()
            && Padded(mask, maskRows)
            && forall i: nat :: i < maskRows ==> MaskBit(mask, i) == src.Matches(row + i))
    }

    ghost function Left(): seq<nat>
      requires rangeIndex <= |ranges|
      reads this
    {
      LeftOf(ranges, rangeIndex, row + maskPos)
    }

    /** The rows still to be handed out. */
    ghost function Remaining(): seq<nat>
      requires Valid()
      reads this
    {
      if done then [] else Take(src.Filter(Left()), remaining)
    }

    lemma LeftAtStart()
      requires Valid() && rangeIndex == 0 && row == 0 && maskPos == 0
      ensures Left() == RowsOf(ranges)
    {
      if ranges == [] {
        RowsOfEmpty();
      } else {
        RowsOfHead(ranges, 0);
        assert ranges[0..] == ranges;
      }
    }

    /** Hands out mask bits `[s, e)` as a range, at most as many rows as the limit allows;
        reaching the limit ends the scan. */
    method Emit(s: nat, e: nat) returns (out: RowRange)
      requires Valid() && !done && maskPos < maskRows && IsRun(mask, maskRows, maskPos, s, e)
      modifies this`maskPos, this`remaining, this`done
      ensures Valid()
      ensures old(Remaining()) == Span(out.offset, out.length) + Remaining()
      ensures out.length == 0 ==> done
      ensures out.End() <= src.rows
      ensures old(remaining).None? ==> remaining.None? && out.length > 0
    {
      hide Padded, Source.Matches, Source.Filter, Source.Valid, LeftOf, Take, MaskBit;
      RunRows(s, e);
      RunInside(s, e);
      ghost var limit, after := remaining, src.Filter(LeftOf(ranges, rangeIndex, row + e));
      maskPos := e;
      var range := RowRange(row + s, e - s);
      if remaining.Some? && remaining.value <= range.length {
        out := RowRange(range.offset, remaining.value);
        remaining, done := Some(0), true;
      } else {
        out := range;
        if remaining.Some? { remaining := Some(remaining.value - range.length); }
      }
      TakeRun(row + s, e - s, after, limit);
    }

    /** Looking past a run of the mask: nothing before it matches, all of it does. */
    lemma RunRows(s: nat, e: nat)
      requires Valid() && maskPos < maskRows && IsRun(mask, maskRows, maskPos, s, e)
      ensures src.Filter(Left()) == Span(row + s, e - s) + src.Filter(LeftOf(ranges, rangeIndex, row + e))
    {
      hide Padded, Source.Matches, Source.Filter, Source.Valid, RowsOf;
      var at, end := row + maskPos, ranges[rangeIndex].End();
      var skipped, run, rest := From(at, row + s), From(row + s, row + e), From(row + e, end);
      FromSplit(at, row + s, end);
      FromSplit(row + s, row + e, end);
      var later := RowsOf(ranges[rangeIndex + 1..]);
      assert Left() == skipped + (run + (rest + later));
      FilterAppend(src, skipped, run + (rest + later));
      FilterAppend(src, run, rest + later);
      forall i | 0 <= i < |skipped|
        ensures !src.Matches(skipped[i])
      {
        assert !MaskBit(mask, maskPos + i);
      }
      FilterNone(src, skipped);
      forall i | 0 <= i < |run|
        ensures src.Matches(run[i])
      {
        assert MaskBit(mask, s + i);
      }
      FilterAll(src, run);
    }

    lemma RunInside(s: nat, e: nat)
      requires Valid() && maskPos < maskRows && IsRun(mask, maskRows, maskPos, s, e)
      ensures row + e <= src.rows
    {
      hide Padded, Source.Matches, Source.Valid;
    }

    /** The rest of the mask has no match. */
    method SkipMask()
      requires Valid() && maskPos < maskRows && forall i: nat :: maskPos <= i < maskRows ==> !MaskBit(mask, i)
      modifies this`maskPos
      ensures Valid() && maskPos == maskRows && Remaining() == old(Remaining())
      ensures |Left()| < |old(Left())|
    {
      hide Source.Matches, Source.Filter, Source.Valid, RowsOf;
      ghost var at, mid, end := row + maskPos, row + maskRows, ranges[rangeIndex].End();
      ghost var skipped, rest := From(at, mid), From(mid, end) + RowsOf(ranges[rangeIndex + 1..]);
      FromSplit(at, mid, end);
      assert Left() == skipped + rest;
      FilterAppend(src, skipped, rest);
      forall i | 0 <= i < |skipped|
        ensures !src.Matches(skipped[i])
      {
        assert !MaskBit(mask, maskPos + i);
      }
      FilterNone(src, skipped);
      maskPos := maskRows;
    }

    /** Moves past a used-up mask, and on to a range with rows left. */
    method Advance() returns (more: bool)
      requires Valid() && !done && maskPos == maskRows
      modifies this`row, this`mask, this`maskRows, this`maskPos, this`rangeIndex, this`done
      ensures Valid() && maskRows == 0 && maskPos == 0
      ensures !more ==> done && old(Remaining()) == []
      ensures more ==> !done && Left() == old(Left()) && Remaining() == old(Remaining())
      ensures more ==> rangeIndex < |ranges| && ranges[rangeIndex].offset <= row < ranges[rangeIndex].End()
    {
      hide Padded, Source.Matches, Source.Filter, Source.Valid, LeftOf;
      row, maskRows, maskPos, mask := row + maskRows, 0, 0, [];
      rangeIndex, row := Seek(ranges, rangeIndex, row);
      if rangeIndex == |ranges| {
        NothingLeft(src, ranges, row, remaining);
        done := true;
        return false;
      }
      return true;
    }

    /** Evaluates the next `n` rows into the mask: value flags, then validity, then packing. */
    method Evaluate(n: nat) returns (ok: bool)
      requires Valid() && maskRows == 0 && maskPos == 0 && rangeIndex < |ranges| && n > 0
      requires ranges[rangeIndex].offset <= row && row + n <= ranges[rangeIndex].End()
      modifies this`mask, this`maskRows
      ensures Valid()
      ensures !ok ==> !src.Compatible()
      ensures ok ==> maskRows == n && Left() == old(Left()) && Remaining() == old(Remaining())
    {
      hide Padded, Source.Filter, RowsOf, RowValue, EvalValue;
      var s := src.dt.SizeOf();
      RowsInside(src, row, n);
      var part := src.values[row * s..(row + n) * s];
      SameValues(src, part, row, n);
      var hit: seq<bool>;
      if src.pred.Some? {
        var r := EvalPredicate(src.pred.value, src.dt, part, n);
        if r.Err? { return false; }
        hit := r.value;
      } else {
        hit := seq(n, _ => true);
      }
      var flags: seq<bool> := [];
      for i := 0 to n
        invariant |flags| == i
        invariant forall k :: 0 <= k < i ==> flags[k] == src.Matches(row + k)
      {
        assert Agrees(src, part, row, n, i);
        flags := flags + [hit[i] && (src.raw.Some? ==> BitAt(src.raw.value, row + i))];
      }
      mask := PackMask(flags);
      maskRows := n;
      return true;
    }

    /** The next run of matching rows, cut by the limit; `None` when there is no more. A
        scan whose literals fit the field's type never fails. */
    method Next() returns (r: Result<Option<RowRange>>)
      requires Valid()
      modifies this
      ensures Valid()
      ensures r.Err? ==> !src.Compatible()
      ensures r.Ok? && r.value.None? ==> old(Remaining()) == [] && done
      ensures r.Ok? && r.value.Some? ==>
                old(Remaining()) == Span(r.value.value.offset, r.value.value.length) + Remaining()
      ensures r.Ok? && r.value.Some? ==> !old(done)
      ensures old(remaining).None? ==> remaining.None? && (r.Ok? && r.value.Some? ==> r.value.value.length > 0)
      ensures r.Ok? && r.value.Some? && r.value.value.length == 0 ==> done
      ensures r.Ok? && r.value.Some? && r.value.value.length > 0 ==> r.value.value.End() <= src.rows
    {
      hide Padded, Source.Matches, Source.Filter, Left;
      while true
        invariant Valid() && Remaining() == old(Remaining()) && (old(done) ==> done) && remaining == old(remaining)
        decreases |Left()|, if maskPos < maskRows then 0 else 1
      {
        if done { return Ok(None); }
        if maskPos < maskRows {
          var run := NextTrueRun(mask, maskRows, maskPos);
          if run.Some? {
            var out := Emit(run.value.0, run.value.1);
            return Ok(Some(out));
          }
          SkipMask();
        }
        var more := Advance();
        if !more { return Ok(None); }
        var rows := Min(ranges[rangeIndex].End(), row + EVAL_CAP) - row;
        var ok := Evaluate(rows);
        if !ok { return Err(Invalid); }
      }
    }
  }

  lemma NothingLeft(src: Source, ranges: seq<RowRange>, at: nat, limit: Option<nat>)
    requires src.Valid()
    ensures Take(src.Filter(LeftOf(ranges, |ranges|, at)), limit) == []
  {
  }

  lemma TakeRun(at: nat, n: nat, after: seq<nat>, limit: Option<nat>)
    ensures limit.Some? && limit.value <= n ==> Take(Span(at, n) + after, limit) == Span(at, limit.value)
    ensures limit.Some? && limit.value > n ==> Take(Span(at, n) + after, limit) == Span(at, n) + Take(after, Some(limit.value - n))
    ensures limit.None? ==> Take(Span(at, n) + after, limit) == Span(at, n) + Take(after, limit)
  {
  }

  lemma RowsInside(src: Source, row: nat, n: nat)
    requires src.Valid() && row + n <= src.rows
    ensures row * src.dt.SizeOf() <= (row + n) * src.dt.SizeOf() <= |src.values|
    ensures |src.values[row * src.dt.SizeOf()..(row + n) * src.dt.SizeOf()]| == n * src.dt.SizeOf()
  {
    MulSum(row, n, src.dt.SizeOf());
    MulSum(row + n, src.rows - (row + n), src.dt.SizeOf());
  }

  /** Row `i` of the stretch is row `row + i` of the field. */
  ghost predicate Agrees(src: Source, part: seq<byte>, row: nat, n: nat, i: nat)
    requires src.Valid() && row + n <= src.rows && |part| == n * src.dt.SizeOf() && i < n
  {
    RowValue(src.dt, part, n, i) == RowValue(src.dt, src.values, src.rows, row + i)
  }

  lemma SameValues(src: Source, part: seq<byte>, row: nat, n: nat)
    requires src.Valid() && row + n <= src.rows
    requires row * src.dt.SizeOf() <= (row + n) * src.dt.SizeOf() <= |src.values|
    requires part == src.values[row * src.dt.SizeOf()..(row + n) * src.dt.SizeOf()] && |part| == n * src.dt.SizeOf()
    ensures forall i :: 0 <= i < n ==> Agrees(src, part, row, n, i)
  {
    hide ValueOf;
    var s := src.dt.SizeOf();
    forall i | 0 <= i < n
      ensures Agrees(src, part, row, n, i)
    {
      CellFits(s, i, n);
      CellFits(s, row + i, src.rows);
      CellOfSlice(src.values, s, row, row + n, i);
    }
  }

  // ----- a whole scan

  /** The requested ranges inside the field, in the order given; none asked for is all. */
  function Clipped(ranges: seq<RowRange>, rows: nat): (r: seq<RowRange>) {
    if ranges == [] then [RowRange(0, rows)] else ClipAll(ranges, rows)
  }

  function ClipAll(ranges: seq<RowRange>, rows: nat): (r: seq<RowRange>)
    ensures forall i :: 0 <= i < |r| ==> r[i].End() <= rows && r[i].length > 0
  {
    if ranges == [] then [] else
      ClipAll(ranges[..|ranges| - 1], rows) + ranges[|ranges| - 1].Intersect(RowRange(0, rows))
  }

  lemma {:induction false} ClipCovers(ranges: seq<RowRange>, rows: nat, row: nat)
    ensures Covers(Clipped(ranges, rows), row) <==> row < rows && (ranges == [] || Covers(ranges, row))
  {
    if ranges == [] {
      assert Clipped(ranges, rows)[0] == RowRange(0, rows);
    } else {
      ClipAllCovers(ranges, rows, row);
    }
  }

  lemma {:induction false} ClipAllCovers(ranges: seq<RowRange>, rows: nat, row: nat)
    ensures Covers(ClipAll(ranges, rows), row) <==> row < rows && Covers(ranges, row)
  {
    hide Covers;
    if ranges == [] {
      NoneCovers([]);
    } else {
      var m := |ranges| - 1;
      var last := ranges[m].Intersect(RowRange(0, rows));
      ClipAllCovers(ranges[..m], rows, row);
      AppendCovers(ranges[..m], ranges[m]);
      assert ranges[..m] + [ranges[m]] == ranges;
      if last == [] {
        assert ClipAll(ranges, rows) == ClipAll(ranges[..m], rows);
      } else {
        AppendCovers(ClipAll(ranges[..m], rows), last[0]);
        assert last == [last[0]];
      }
    }
  }

  /** Clipping takes nothing from the matching rows of the request, nor from their order. */
  lemma ClippedFilter(src: Source, ranges: seq<RowRange>)
    requires src.Valid()
    ensures src.Filter(RowsOf(Clipped(ranges, src.rows)))
         == src.Filter(if ranges == [] then Span(0, src.rows) else RowsOf(ranges))
  {
    hide Source.Filter, RowsOf;
    if ranges == [] {
      RowsOfOne(RowRange(0, src.rows));
    } else {
      ClipAllFilter(src, ranges);
    }
  }

  lemma RowsOfOne(r: RowRange)
    ensures RowsOf([r]) == Span(r.offset, r.length)
  {
    assert [r][..0] == [];
    RowsOfEmpty();
  }

  lemma {:induction false} ClipAllFilter(src: Source, ranges: seq<RowRange>)
    requires src.Valid()
    ensures src.Filter(RowsOf(ClipAll(ranges, src.rows))) == src.Filter(RowsOf(ranges))
  {
    hide Source.Filter, RowsOf;
    if ranges != [] {
      var m := |ranges| - 1;
      var last := ranges[m].Intersect(RowRange(0, src.rows));
      ClipAllFilter(src, ranges[..m]);
      RowsOfAppend(ClipAll(ranges[..m], src.rows), last);
      RowsOfAppend(ranges[..m], [ranges[m]]);
      assert ranges[..m] + [ranges[m]] == ranges;
      RowsOfOne(ranges[m]);
      ClipOne(src, ranges[m]);
      FilterAppend(src, RowsOf(ClipAll(ranges[..m], src.rows)), RowsOf(last));
      FilterAppend(src, RowsOf(ranges[..m]), Span(ranges[m].offset, ranges[m].length));
    }
  }

  /** The part of a range past the field matches nothing. */
  lemma ClipOne(src: Source, r: RowRange)
    requires src.Valid()
    ensures src.Filter(RowsOf(r.Intersect(RowRange(0, src.rows)))) == src.Filter(Span(r.offset, r.length))
  {
    hide Source.Filter, RowsOf, Source.Matches;
    var part := r.Intersect(RowRange(0, src.rows));
    var all := Span(r.offset, r.length);
    var n := if part == [] then 0 else part[0].length;
    if part == [] { RowsOfEmpty(); } else { RowsOfOne(part[0]); }
    assert all == Span(r.offset, n) + Span(r.offset + n, r.length - n);
    FilterAppend(src, Span(r.offset, n), Span(r.offset + n, r.length - n));
    FilterNone(src, Span(r.offset + n, r.length - n));
    FilterNone(src, []);
  }

  /** What a handle offers to a scan. */
  ghost predicate SourceOf(h: FieldHandle, pred: Option<Predicate>, src: Source)
    reads h, h.values, h.bits
  {
    && src.Valid() && src.dt == h.header.dt && src.rows == h.header.rows && src.pred == pred
    && src.values == h.values[..]
    && forall row: nat :: row < src.rows ==> src.IsRowValid(row) == h.Validity()[row]
  }

  method Scan(h: FieldHandle, ranges: seq<RowRange>, pred: Option<Predicate>, limit: Option<nat>) returns (sc: FieldScanner)
    requires h.Valid() && !h.truncated
    ensures fresh(sc) && sc.Valid() && SourceOf(h, pred, sc.src) && sc.remaining == limit
    ensures sc.Remaining() == Take(sc.src.Filter(if ranges == [] then Span(0, h.header.rows) else RowsOf(ranges)), limit)
  {
    hide Nulls, Source.Filter, RowsOf, Take, Blank;
    h.Shape();
    var src := Source(h.header.dt, h.values[..], if h.hasBits then Some(h.bits[..]) else None, h.header.rows, pred);
    ClippedFilter(src, ranges);
    sc := ScanFrom(src, ranges, limit);
  }

  method ScanFrom(src: Source, ranges: seq<RowRange>, limit: Option<nat>) returns (sc: FieldScanner)
    requires src.Valid()
    ensures fresh(sc) && sc.Valid() && sc.src == src && sc.remaining == limit
    ensures sc.Remaining() == Take(src.Filter(RowsOf(Clipped(ranges, src.rows))), limit)
  {
    hide Source.Filter, RowsOf, Take;
    var clipped: seq<RowRange>;
    if ranges == [] {
      clipped := [RowRange(0, src.rows)];
    } else {
      clipped := [];
      assert ranges[..0] == [];
      for i := 0 to |ranges|
        invariant clipped == ClipAll(ranges[..i], src.rows)
      {
        assert ranges[..i + 1][..i] == ranges[..i];
        clipped := clipped + ranges[i].Intersect(RowRange(0, src.rows));
      }
      assert ranges[..|ranges|] == ranges;
    }
    sc := new FieldScanner(src, clipped, limit);
  }

  /** Calling `Next` until it has no more gives exactly the remaining rows, and ends. */
  method Drain(sc: FieldScanner) returns (r: Result<seq<RowRange>>)
    requires sc.Valid()
    modifies sc
    ensures (sc.src.pred.Some? ==> FieldEval.Compatible(sc.src.dt, sc.src.pred.value)) ==> r.Ok?
    ensures r.Ok? ==> RowsOf(r.value) == old(sc.Remaining())
    ensures r.Ok? && old(sc.remaining).None? ==> NonEmpty(r.value)
  {
    hide FieldScanner.Remaining, FieldScanner.Valid, RowsOf;
    var out: seq<RowRange> := [];
    ghost var all := sc.Remaining();
    RowsOfEmpty();
    while true
      invariant sc.Valid() && RowsOf(out) + sc.Remaining() == all
      invariant old(sc.remaining).None? ==> sc.remaining.None? && NonEmpty(out)
      decreases |sc.Remaining()|, if sc.done then 0 else 1
    {
      var next := sc.Next();
      if next.Err? { return Err(next.error); }
      if next.value.None? { return Ok(out); }
      var range := next.value.value;
      RowsOfAppend(out, [range]);
      RowsOfHead([range], 0);
      RowsOfEmpty();
      assert [range][0..] == [range] && [range][1..] == [];
      assert RowsOf(out + [range]) == RowsOf(out) + Span(range.offset, range.length);
      out := out + [range];
    }
  }

  // ----- the rows found, as a set

  lemma {:induction false} FilterMember(src: Source, list: seq<nat>, row: nat)
    requires src.Valid()
    ensures row in src.Filter(list) <==> row in list && row < src.rows && src.Matches(row)
  {
    hide Source.Matches;
    if list != [] {
      var m := |list| - 1;
      FilterMember(src, list[..m], row);
      assert list == list[..m] + [list[m]];
    }
  }

  lemma {:induction false} FilterIncreasing(src: Source, list: seq<nat>)
    requires src.Valid() && Increasing(list)
    ensures Increasing(src.Filter(list))
  {
    hide Source.Matches;
    if list != [] {
      var m := |list| - 1;
      FilterIncreasing(src, list[..m]);
      forall i | 0 <= i < |src.Filter(list[..m])|
        ensures src.Filter(list[..m])[i] < list[m]
      {
        FilterMember(src, list[..m], src.Filter(list[..m])[i]);
      }
    }
  }

  lemma {:induction false} ClipSorted(ranges: seq<RowRange>, rows: nat)
    requires SortedDisjoint(ranges)
    ensures SortedDisjoint(ClipAll(ranges, rows))
    ensures ranges != [] && ClipAll(ranges, rows) != [] ==>
              ClipAll(ranges, rows)[|ClipAll(ranges, rows)| - 1].End() <= ranges[|ranges| - 1].End()
  {
    hide SortedDisjoint;
    SortedPrefix(ranges);
    if ranges != [] {
      var m := |ranges| - 1;
      ClipSorted(ranges[..m], rows);
      var last := ranges[m].Intersect(RowRange(0, rows));
      if last != [] {
        AppendSorted(ClipAll(ranges[..m], rows), last[0]);
        assert last == [last[0]];
      } else {
        assert ClipAll(ranges, rows) == ClipAll(ranges[..m], rows);
      }
    }
  }

  lemma SortedPrefix(rs: seq<RowRange>)
    requires SortedDisjoint(rs)
    ensures rs != [] ==> SortedDisjoint(rs[..|rs| - 1])
    ensures |rs| > 1 ==> rs[|rs| - 2].End() <= rs[|rs| - 1].offset
    ensures rs == [] ==> SortedDisjoint(ClipAll(rs, 0)) && ClipAll(rs, 0) == []
  {
  }

  /** Non-empty ranges whose rows increase are sorted and disjoint. */
  lemma {:induction false} RowsTellOrder(rs: seq<RowRange>)
    requires NonEmpty(rs) && Increasing(RowsOf(rs))
    ensures SortedDisjoint(rs)
  {
    if rs != [] {
      var m := |rs| - 1;
      var before, last := RowsOf(rs[..m]), Span(rs[m].offset, rs[m].length);
      assert RowsOf(rs) == before + last;
      assert Increasing(before) by {
        forall i, j | 0 <= i < j < |before| ensures before[i] < before[j] {
          assert RowsOf(rs)[i] == before[i] && RowsOf(rs)[j] == before[j];
        }
      }
      RowsTellOrder(rs[..m]);
      forall k | 0 <= k < m
        ensures rs[k].End() <= rs[m].offset
      {
        var x := rs[k].End() - 1;
        assert rs[..m][k].Contains(x);
        RowsOfMember(rs[..m], x);
        var i :| 0 <= i < |before| && before[i] == x;
        assert RowsOf(rs)[i] == x && RowsOf(rs)[|before|] == last[0];
      }
    }
  }

  /** All matching rows of sorted ranges, as sorted ranges. */
  method FieldHits(src: Source, ranges: seq<RowRange>) returns (r: Result<seq<RowRange>>)
    requires src.Valid() && SortedDisjoint(ranges) && ranges != []
    ensures (src.pred.Some? ==> FieldEval.Compatible(src.dt, src.pred.value)) ==> r.Ok?
    ensures r.Ok? ==> SortedDisjoint(r.value)
    ensures r.Ok? ==> forall row: nat :: Covers(r.value, row) <==> Covers(ranges, row) && row < src.rows && src.Matches(row)
  {
    hide Source.Filter, Source.Matches, RowsOf, FieldScanner.Remaining, Covers, Clipped, SortedDisjoint;
    var sc := ScanFrom(src, ranges, None);
    r := Drain(sc);
    if r.Ok? {
      ghost var list := RowsOf(Clipped(ranges, src.rows));
      ClipIncreases(ranges, src.rows);
      FilterIncreasing(src, list);
      RowsTellOrder(r.value);
      forall row: nat
        ensures Covers(r.value, row) <==> Covers(ranges, row) && row < src.rows && src.Matches(row)
      {
        RowsOfMember(r.value, row);
        FilterMember(src, list, row);
        RowsOfMember(Clipped(ranges, src.rows), row);
        ClipCovers(ranges, src.rows, row);
      }
    }
  }

  lemma ClipIncreases(ranges: seq<RowRange>, rows: nat)
    requires SortedDisjoint(ranges) && ranges != []
    ensures Increasing(RowsOf(Clipped(ranges, rows)))
  {
    ClipSorted(ranges, rows);
    RowsOfIncreasing(ClipAll(ranges, rows));
  }
}
