/** Overwriting existing rows of a table: the input is split by partition, every key is
    located before anything is written, and the located rows take the input's cells. */
module WriteTable {
  import opened Columns
  import opened Formats
  import opened Gather
  import opened Meta
  import opened MetaLocate
  import opened Order
  import opened Partitions
  import opened Ranges
  import opened Runs
  import opened Spans

  /** `len` input rows from `start` go to the grid rows from `grid`. */
  datatype Write = Write(grid: nat, start: nat, len: nat)

  ghost function GridRows(ws: seq<Write>): seq<nat> {
    if ws == [] then [] else GridRows(ws[..|ws| - 1]) + Span(ws[|ws| - 1].grid, ws[|ws| - 1].len)
  }

  ghost function InputRows(ws: seq<Write>): seq<nat> {
    if ws == [] then [] else InputRows(ws[..|ws| - 1]) + Span(ws[|ws| - 1].start, ws[|ws| - 1].len)
  }

  lemma WritesMore(ws: seq<Write>, w: Write)
    ensures GridRows(ws + [w]) == GridRows(ws) + Span(w.grid, w.len)
    ensures InputRows(ws + [w]) == InputRows(ws) + Span(w.start, w.len)
  {
    assert (ws + [w])[..|ws|] == ws;
  }

  lemma {:induction false} WritesPaired(ws: seq<Write>)
    ensures |GridRows(ws)| == |InputRows(ws)|
  {
    if ws != [] { WritesPaired(ws[..|ws| - 1]); }
  }

  lemma NoWrites()
    ensures GridRows([]) == [] && InputRows([]) == []
  {
  }

  /** The rows of spans, one by one. */
  ghost function RunRows(runs: seq<Run>): seq<nat> {
    if runs == [] then [] else RunRows(runs[..|runs| - 1]) + Span(runs[|runs| - 1].start, runs[|runs| - 1].len)
  }

  lemma RunRowsMore(runs: seq<Run>, k: nat)
    requires k < |runs|
    ensures RunRows(runs[..k + 1]) == RunRows(runs[..k]) + Span(runs[k].start, runs[k].len)
  {
    assert runs[..k + 1][..k] == runs[..k];
  }

  lemma {:induction false} RunRowsPrefix(runs: seq<Run>, k: nat)
    requires k <= |runs|
    ensures RunRows(runs[..k]) <= RunRows(runs)
  {
    if k < |runs| {
      RunRowsPrefix(runs[..|runs| - 1], k);
      assert runs[..|runs| - 1][..k] == runs[..k];
    } else {
      assert runs[..k] == runs;
    }
  }

  // ----- mapping located ranges back to input rows

  /** How far the mapping has come: whole spans before `ri`, then `pos` rows of it. */
  ghost predicate Mapped(runs: seq<Run>, ws: seq<Write>, ri: nat, pos: nat, grid: seq<nat>) {
    && ri <= |runs| && (ri < |runs| ==> pos < runs[ri].len) && (ri == |runs| ==> pos == 0)
    && GridRows(ws) == grid && (forall k :: 0 <= k < |ws| ==> ws[k].len > 0)
    && InputRows(ws) == RunRows(runs[..ri]) + (if ri < |runs| then Span(runs[ri].start, pos) else [])
  }

  lemma MappedStart(runs: seq<Run>)
    requires forall k :: 0 <= k < |runs| ==> runs[k].len > 0
    ensures Mapped(runs, [], 0, 0, [])
  {
    NoWrites();
    assert runs[..0] == [];
  }

  /** While rows of a range are left, so are input rows. */
  lemma MappedRoom(runs: seq<Run>, ws: seq<Write>, ri: nat, pos: nat, grid: seq<nat>)
    requires Mapped(runs, ws, ri, pos, grid) && |grid| < |RunRows(runs)|
    ensures ri < |runs|
  {
    WritesPaired(ws);
    assert runs[..|runs|] == runs;
  }

  /** One piece: as much as the range and the current span both have. */
  lemma MappedStep(runs: seq<Run>, ws: seq<Write>, ri: nat, pos: nat, grid: seq<nat>, off: nat, take: nat)
    requires Mapped(runs, ws, ri, pos, grid) && ri < |runs| && 0 < take <= runs[ri].len - pos
    requires forall k :: 0 <= k < |runs| ==> runs[k].len > 0
    ensures var next := ws + [Write(off, runs[ri].start + pos, take)];
            if pos + take == runs[ri].len then Mapped(runs, next, ri + 1, 0, grid + Span(off, take))
            else Mapped(runs, next, ri, pos + take, grid + Span(off, take))
  {
    hide RunRows, GridRows, InputRows;
    var r := runs[ri];
    WritesMore(ws, Write(off, r.start + pos, take));
    assert Span(r.start, pos) + Span(r.start + pos, take) == Span(r.start, pos + take);
    if pos + take == r.len {
      RunRowsMore(runs, ri);
      assert RunRows(runs[..ri]) + Span(r.start, pos) + Span(r.start + pos, take) == RunRows(runs[..ri]) + Span(r.start, r.len);
      if ri + 1 < |runs| { assert Span(runs[ri + 1].start, 0) == []; }
    } else {
      assert RunRows(runs[..ri]) + Span(r.start, pos) + Span(r.start + pos, take) == RunRows(runs[..ri]) + Span(r.start, pos + take);
    }
  }

  /** Walks the located ranges and the spans together; a range that crosses a span's end is
      cut there. Every located row is paired with its input row. */
  method MapRanges(located: seq<RowRange>, runs: seq<Run>) returns (ws: seq<Write>)
    requires forall k :: 0 <= k < |runs| ==> runs[k].len > 0
    requires |RowsOf(located)| == |RunRows(runs)|
    ensures GridRows(ws) == RowsOf(located) && InputRows(ws) == RunRows(runs)
    ensures forall k :: 0 <= k < |ws| ==> ws[k].len > 0
  {
    hide Mapped, RowsOf, RunRows, GridRows, InputRows;
    ws := [];
    var ri, pos := 0, 0;
    MappedStart(runs);
    RowsOfEmpty();
    assert located[..0] == [];
    for i := 0 to |located|
      invariant 0 <= ri && 0 <= pos && Mapped(runs, ws, ri, pos, RowsOf(located[..i]))
    {
      var rest, off := located[i].length, located[i].offset;
      ghost var before := RowsOf(located[..i]);
      LocatedMore(located, i);
      assert before + Span(off, 0) == before;
      while rest > 0
        invariant 0 <= ri && 0 <= pos && 0 <= rest <= located[i].length && off == located[i].offset + (located[i].length - rest)
        invariant Mapped(runs, ws, ri, pos, before + Span(located[i].offset, located[i].length - rest))
      {
        ghost var done := before + Span(located[i].offset, located[i].length - rest);
        MappedRoom(runs, ws, ri, pos, done);
        MappedInside(runs, ws, ri, pos, done);
        var run := runs[ri];
        var take := if rest < run.len - pos then rest else run.len - pos;
        MappedStep(runs, ws, ri, pos, done, off, take);
        assert done + Span(off, take) == before + Span(located[i].offset, located[i].length - rest + take);
        ws := ws + [Write(off, run.start + pos, take)];
        off, pos, rest := off + take, pos + take, rest - take;
        if pos == run.len { ri, pos := ri + 1, 0; }
      }
    }
    assert located[..|located|] == located;
    MappedEnd(runs, ws, ri, pos, RowsOf(located));
  }

  lemma LocatedMore(located: seq<RowRange>, i: nat)
    requires i < |located|
    ensures RowsOf(located[..i + 1]) == RowsOf(located[..i]) + Span(located[i].offset, located[i].length)
    ensures |RowsOf(located[..i + 1])| <= |RowsOf(located)|
  {
    assert located[..i + 1][..i] == located[..i];
    assert located == located[..i + 1] + located[i + 1..];
    RowsOfAppend(located[..i + 1], located[i + 1..]);
  }

  lemma MappedInside(runs: seq<Run>, ws: seq<Write>, ri: nat, pos: nat, grid: seq<nat>)
    requires Mapped(runs, ws, ri, pos, grid) && ri < |runs|
    ensures pos < runs[ri].len
  {
  }

  lemma MappedEnd(runs: seq<Run>, ws: seq<Write>, ri: nat, pos: nat, grid: seq<nat>)
    requires Mapped(runs, ws, ri, pos, grid) && |grid| == |RunRows(runs)|
    requires forall k :: 0 <= k < |runs| ==> runs[k].len > 0
    ensures GridRows(ws) == grid && InputRows(ws) == RunRows(runs)
    ensures forall k :: 0 <= k < |ws| ==> ws[k].len > 0
  {
    WritesPaired(ws);
    assert runs[..|runs|] == runs;
    if ri < |runs| {
      RunRowsMore(runs, ri);
      RunRowsPrefix(runs, ri + 1);
    }
    assert ri == |runs|;
  }

  // ----- overwriting one column

  /** Each write lays its input rows over its grid rows. */
  ghost function Overlaid(col: seq<CellValue>, src: seq<CellValue>, ws: seq<Write>): (r: seq<CellValue>)
    requires forall k :: 0 <= k < |ws| ==> ws[k].grid + ws[k].len <= |col| && ws[k].start + ws[k].len <= |src|
    ensures |r| == |col|
  {
    if ws == [] then col else
      var w := ws[|ws| - 1];
      Splice(Overlaid(col, src, ws[..|ws| - 1]), w.grid, src[w.start..w.start + w.len])
  }

  /** Writes stay inside both columns. */
  ghost predicate WritesFit(ws: seq<Write>, rows: nat, input: nat) {
    forall k :: 0 <= k < |ws| ==> ws[k].grid + ws[k].len <= rows && ws[k].start + ws[k].len <= input
  }

  /** With grid rows increasing, each written row holds its input row's cell and every
      other row its old one. */
  lemma {:induction false} OverlaidExact(col: seq<CellValue>, src: seq<CellValue>, ws: seq<Write>)
    requires WritesFit(ws, |col|, |src|) && Increasing(GridRows(ws))
    ensures |GridRows(ws)| == |InputRows(ws)|
    ensures forall k :: 0 <= k < |GridRows(ws)| ==>
              GridRows(ws)[k] < |col| && InputRows(ws)[k] < |src| && Overlaid(col, src, ws)[GridRows(ws)[k]] == src[InputRows(ws)[k]]
    ensures forall g: nat :: g < |col| && g !in GridRows(ws) ==> Overlaid(col, src, ws)[g] == col[g]
  {
    hide GridRows, InputRows, Overlaid, Splice;
    WritesPaired(ws);
    if ws == [] {
      NoWrites();
      OverlaidOver(col, src);
    } else {
      var m := |ws| - 1;
      var before, w := ws[..m], ws[m];
      assert ws == before + [w];
      WritesMore(before, w);
      WritesPaired(before);
      IncreasingPrefix(GridRows(before), Span(w.grid, w.len));
      OverlaidExact(col, src, before);
      OverlaidMore(col, src, ws, m);
      var old_, now := Overlaid(col, src, before), Overlaid(col, src, ws);
      assert ws[..m + 1] == ws;
      OverlaidStep(old_, now, src, w, GridRows(before), InputRows(before), GridRows(ws), InputRows(ws));
      OverlaidElse(col, old_, now, src, w, GridRows(before), GridRows(ws));
    }
  }

  lemma OverlaidOver(col: seq<CellValue>, src: seq<CellValue>)
    ensures Overlaid(col, src, []) == col
  {
  }

  /** Rows outside all writes keep their cells. */
  lemma OverlaidElse(col: seq<CellValue>, old_: seq<CellValue>, now: seq<CellValue>, src: seq<CellValue>, w: Write, grid: seq<nat>, grid': seq<nat>)
    requires |old_| == |col| && w.grid + w.len <= |old_| && w.start + w.len <= |src|
    requires now == Splice(old_, w.grid, src[w.start..w.start + w.len]) && grid' == grid + Span(w.grid, w.len)
    requires forall g: nat :: g < |col| && g !in grid ==> old_[g] == col[g]
    ensures forall g: nat :: g < |col| && g !in grid' ==> now[g] == col[g]
  {
    forall g: nat | g < |col| && g !in grid'
      ensures now[g] == col[g]
    {
      SpanMember(w.grid, w.len, g);
    }
  }

  lemma SpanMember(at: nat, n: nat, g: nat)
    ensures g in Span(at, n) <==> at <= g < at + n
  {
    if at <= g < at + n { assert Span(at, n)[g - at] == g; }
  }

  lemma IncreasingPrefix(a: seq<nat>, b: seq<nat>)
    requires Increasing(a + b)
    ensures Increasing(a) && forall i, j :: 0 <= i < |a| && 0 <= j < |b| ==> a[i] < b[j]
  {
    forall i, j | 0 <= i < |a| && 0 <= j < |b|
      ensures a[i] < b[j]
    {
      assert (a + b)[i] == a[i] && (a + b)[|a| + j] == b[j];
    }
    forall i, j | 0 <= i < j < |a| ensures a[i] < a[j] { assert (a + b)[i] == a[i] && (a + b)[j] == a[j]; }
  }

  lemma OverlaidStep(old_: seq<CellValue>, now: seq<CellValue>, src: seq<CellValue>, w: Write,
                     grid: seq<nat>, input: seq<nat>, grid': seq<nat>, input': seq<nat>)
    requires w.grid + w.len <= |old_| && w.start + w.len <= |src|
    requires now == Splice(old_, w.grid, src[w.start..w.start + w.len])
    requires |grid| == |input| && grid' == grid + Span(w.grid, w.len) && input' == input + Span(w.start, w.len)
    requires forall i, j :: 0 <= i < |grid| && 0 <= j < w.len ==> grid[i] < Span(w.grid, w.len)[j]
    requires forall k :: 0 <= k < |grid| ==> grid[k] < |old_| && input[k] < |src| && old_[grid[k]] == src[input[k]]
    ensures forall k :: 0 <= k < |grid'| ==> grid'[k] < |old_| && input'[k] < |src| && now[grid'[k]] == src[input'[k]]
  {
    forall k | 0 <= k < |grid'|
      ensures grid'[k] < |old_| && input'[k] < |src| && now[grid'[k]] == src[input'[k]]
    {
      if k < |grid| {
        if w.len > 0 { assert grid[k] < Span(w.grid, w.len)[0]; }
      } else {
        var x := k - |grid|;
        assert grid'[k] == w.grid + x && input'[k] == w.start + x;
      }
    }
  }

  // ----- the table

  /** A stored column: its type, whether its file has room for NULLs (a plain file created
      without a validity region has none), and its cells. */
  datatype Col = Col(dt: DataType, nullable: bool, cells: seq<CellValue>) {
    ghost predicate Valid(rows: nat) {
      |cells| == rows && (!nullable ==> forall i :: 0 <= i < |cells| ==> cells[i].Some?)
    }
  }

  /** A partition: its index and its columns. */
  datatype Part = Part(idx: Index, cols: map<string, Col>) {
    ghost predicate Valid() {
      && idx.Valid() && LexIncreasing(idx.names)
      && forall f :: f in cols ==> cols[f].Valid(idx.RowCount())
    }
  }

  /** An input column. */
  datatype InCol = InCol(dt: DataType, cells: seq<CellValue>)

  /** The rows handed to a write. */
  datatype Input = Input(syms: seq<Option<Str>>, times: seq<int>, cols: map<string, InCol>) {
    predicate Shaped() {
      |syms| == |times| && forall f :: f in cols ==> |cols[f].cells| == |times|
    }

    ghost predicate SignedTimes() {
      forall i :: 0 <= i < |times| ==> -0x8000_0000_0000_0000 <= times[i] < 0x8000_0000_0000_0000
    }

    function KeyAt(i: nat): Key
      requires Shaped() && i < |times|
    {
      Key(if syms[i].Some? then syms[i].value else [], times[i])
    }
  }

  type Parts = map<Name, Part>

  ghost predicate PartsValid(ps: Parts) { forall n :: n in ps ==> ps[n].Valid() }

  /** Input row `i` is row `g` of partition `n`. */
  ghost predicate Hits(ps: Parts, inp: Input, scheme: Scheme, tt: TimeType, n: Name, g: nat, i: nat)
    requires PartsValid(ps) && inp.Shaped() && n in ps
  {
    && i < |inp.times| && PartitionName(scheme, inp.times[i], tt) == n
    && g < ps[n].idx.RowCount() && |ps[n].idx.Rows()| == ps[n].idx.RowCount()
    && ps[n].idx.Rows()[g] == RowOfKey(inp.KeyAt(i))
  }

  ghost predicate Touched(ps: Parts, inp: Input, scheme: Scheme, tt: TimeType, n: Name, g: nat)
    requires PartsValid(ps) && inp.Shaped() && n in ps
  {
    exists i: nat :: Hits(ps, inp, scheme, tt, n, g, i)
  }

  /** Same partitions, indexes, columns and row counts. */
  ghost predicate SameShape(was: Parts, now: Parts) {
    && was.Keys == now.Keys
    && forall n :: n in was ==> SamePart(was[n], now[n])
  }

  ghost predicate SamePart(was: Part, now: Part) {
    && now.idx == was.idx && now.cols.Keys == was.cols.Keys
    && forall f :: f in was.cols ==> SameCol(was.cols[f], now.cols[f])
  }

  /** Another content, the same column. */
  ghost predicate SameCol(was: Col, now: Col) {
    now.dt == was.dt && now.nullable == was.nullable && |now.cells| == |was.cells|
  }

  /** Cell `g` of column `f` of partition `n`: the input's where an input row hits it, the
      old one where none does or the column is not written. */
  ghost predicate CellRight(was: Parts, now: Parts, inp: Input, scheme: Scheme, tt: TimeType, n: Name, f: string, g: nat)
    requires PartsValid(was) && inp.Shaped() && n in was && n in now && f in was[n].cols && f in now[n].cols
    requires g < |was[n].cols[f].cells| == |now[n].cols[f].cells|
  {
    && (f in inp.cols ==> forall i: nat :: Hits(was, inp, scheme, tt, n, g, i) ==> now[n].cols[f].cells[g] == inp.cols[f].cells[i])
    && (f !in inp.cols || !Touched(was, inp, scheme, tt, n, g) ==> now[n].cols[f].cells[g] == was[n].cols[f].cells[g])
  }

  /** The table is the old one with the input's cells at the input's keys. */
  ghost predicate Updated(was: Parts, now: Parts, inp: Input, scheme: Scheme, tt: TimeType)
    requires PartsValid(was) && inp.Shaped()
  {
    && SameShape(was, now)
    && forall n :: n in was ==> PartRight(was, now, inp, scheme, tt, n)
  }

  ghost predicate PartRight(was: Parts, now: Parts, inp: Input, scheme: Scheme, tt: TimeType, n: Name)
    requires PartsValid(was) && inp.Shaped() && n in was && n in now && SamePart(was[n], now[n])
  {
    forall f, g: nat :: f in was[n].cols && g < |was[n].cols[f].cells| ==> CellRight(was, now, inp, scheme, tt, n, f, g)
  }

  /** Two rows of a grid never hold the same key. */
  lemma GridDistinct(idx: Index, a: nat, b: nat)
    requires idx.Valid() && LexIncreasing(idx.names) && a < idx.RowCount() && b < idx.RowCount()
    requires |idx.Rows()| == idx.RowCount() && idx.Rows()[a] == idx.Rows()[b]
    ensures a == b
  {
    hide Index.Rows;
    var j, t := FindRow(idx, a);
    var k, u := FindRow(idx, b);
    if j != k { DistinctNames(idx.names, j, k); }
    assert t == u;
  }

  // ----- the plan

  /** The keys of a partition's spans, in input order. */
  method PairsOf(inp: Input, runs: seq<Run>) returns (keys: seq<Key>)
    requires inp.Shaped() && RunsFit(runs, |inp.times|)
    ensures |keys| == |RunRows(runs)|
    ensures forall k :: 0 <= k < |keys| ==> RunRows(runs)[k] < |inp.times| && keys[k] == inp.KeyAt(RunRows(runs)[k])
  {
    hide RunRows;
    keys := [];
    NoRunRows();
    assert runs[..0] == [];
    for r := 0 to |runs|
      invariant |keys| == |RunRows(runs[..r])|
      invariant forall k :: 0 <= k < |keys| ==> RunRows(runs[..r])[k] < |inp.times| && keys[k] == inp.KeyAt(RunRows(runs[..r])[k])
    {
      RunRowsMore(runs, r);
      assert runs[r].End() <= |inp.times|;
      ghost var was := keys;
      for i := 0 to runs[r].len
        invariant |keys| == |was| + i && keys[..|was|] == was
        invariant forall j :: |was| <= j < |keys| ==> keys[j] == inp.KeyAt(runs[r].start + (j - |was|))
      {
        keys := keys + [inp.KeyAt(runs[r].start + i)];
      }
    }
    assert runs[..|runs|] == runs;
  }

  lemma NoRunRows()
    ensures RunRows([]) == []
  {
  }

  /** Every key of the partition's rows is in its index, in the order the locator wants. */
  ghost predicate Locatable(idx: Index, inp: Input, runs: seq<Run>)
    requires idx.Valid() && inp.Shaped()
  {
    && (forall k :: 0 <= k < |RunRows(runs)| ==> RunRows(runs)[k] < |inp.times| && Present(idx, inp.KeyAt(RunRows(runs)[k])))
    && (forall k :: 0 < k < |RunRows(runs)| && RunRows(runs)[k] < |inp.times| && RunRows(runs)[k - 1] < |inp.times| ==>
          var a, b := inp.KeyAt(RunRows(runs)[k - 1]), inp.KeyAt(RunRows(runs)[k]);
          KeyBefore(a, b) && (a.sym == b.sym ==> AsU64(a.time) < AsU64(b.time)))
  }

  /** A partition's writes pair every one of its input rows with its key's grid row. */
  ghost predicate PlanOk(part: Part, inp: Input, runs: seq<Run>, ws: seq<Write>)
    requires part.Valid() && inp.Shaped()
  {
    var idx := part.idx;
    && WritesFit(ws, idx.RowCount(), |inp.times|) && Increasing(GridRows(ws))
    && InputRows(ws) == RunRows(runs) && |GridRows(ws)| == |InputRows(ws)| && |idx.Rows()| == idx.RowCount()
    && forall k :: 0 <= k < |GridRows(ws)| ==>
         && GridRows(ws)[k] < idx.RowCount() && InputRows(ws)[k] < |inp.times|
         && idx.Rows()[GridRows(ws)[k]] == RowOfKey(inp.KeyAt(InputRows(ws)[k]))
  }

  lemma {:induction false} RowsBoundWrites(ws: seq<Write>, rows: nat, input: nat)
    requires forall k :: 0 <= k < |ws| ==> ws[k].len > 0
    requires forall g :: g in GridRows(ws) ==> g < rows
    requires forall i :: i in InputRows(ws) ==> i < input
    ensures WritesFit(ws, rows, input)
  {
    if ws != [] {
      var m := |ws| - 1;
      var w := ws[m];
      assert GridRows(ws) == GridRows(ws[..m]) + Span(w.grid, w.len) && InputRows(ws) == InputRows(ws[..m]) + Span(w.start, w.len);
      forall g | g in GridRows(ws[..m]) ensures g < rows { assert g in GridRows(ws); }
      forall i | i in InputRows(ws[..m]) ensures i < input { assert i in InputRows(ws); }
      RowsBoundWrites(ws[..m], rows, input);
      SpanMember(w.grid, w.len, w.grid + w.len - 1);
      SpanMember(w.start, w.len, w.start + w.len - 1);
      assert w.grid + w.len - 1 in GridRows(ws) && w.start + w.len - 1 in InputRows(ws);
    }
  }

  /** Locates one partition's keys and maps the ranges back to its input rows. */
  method PlanPartition(part: Part, inp: Input, runs: seq<Run>) returns (r: Result<seq<Write>>)
    requires part.Valid() && inp.Shaped() && inp.SignedTimes()
    requires RunsFit(runs, |inp.times|) && forall k :: 0 <= k < |runs| ==> runs[k].len > 0
    ensures r.Ok? <==> Locatable(part.idx, inp, runs)
    ensures r.Ok? ==> PlanOk(part, inp, runs, r.value)
  {
    hide RunRows, GridRows, InputRows, RowsOf, Index.Rows, LexLess, Canonical, AsU64;
    GridLength(part.idx);
    var pairs := PairsOf(inp, runs);
    forall i | 0 <= i < |pairs| ensures -0x8000_0000_0000_0000 <= pairs[i].time < 0x8000_0000_0000_0000 { assert pairs[i] == inp.KeyAt(RunRows(runs)[i]); }
    var located := Locate(part.idx, pairs);
    LocatableIs(part.idx, inp, runs, pairs);
    if located.Err? { return Err(located.error); }
    var ws := MapRanges(located.value, runs);
    CanonicalIncreasing(located.value);
    RowsBoundWrites(ws, part.idx.RowCount(), |inp.times|);
    return Ok(ws);
  }

  lemma CanonicalIncreasing(rs: seq<RowRange>)
    requires Canonical(rs)
    ensures Increasing(RowsOf(rs))
  {
    RowsOfIncreasing(rs);
  }

  lemma LocatableIs(idx: Index, inp: Input, runs: seq<Run>, pairs: seq<Key>)
    requires idx.Valid() && inp.Shaped() && |pairs| == |RunRows(runs)|
    requires forall k :: 0 <= k < |pairs| ==> RunRows(runs)[k] < |inp.times| && pairs[k] == inp.KeyAt(RunRows(runs)[k])
    ensures Locatable(idx, inp, runs) <==>
              SortedKeys(pairs) && PatternsRise(pairs) && forall i :: 0 <= i < |pairs| ==> Present(idx, pairs[i])
  {
    hide RunRows, Present, LexLess, AsU64;
    if Locatable(idx, inp, runs) {
      forall k | 0 < k < |pairs|
        ensures KeyBefore(pairs[k - 1], pairs[k]) && (pairs[k - 1].sym == pairs[k].sym ==> AsU64(pairs[k - 1].time) < AsU64(pairs[k].time))
      {
        assert pairs[k] == inp.KeyAt(RunRows(runs)[k]) && pairs[k - 1] == inp.KeyAt(RunRows(runs)[k - 1]);
      }
    }
    if SortedKeys(pairs) && PatternsRise(pairs) && forall i :: 0 <= i < |pairs| ==> Present(idx, pairs[i]) {
      forall k | 0 < k < |RunRows(runs)|
        ensures KeyBefore(inp.KeyAt(RunRows(runs)[k - 1]), inp.KeyAt(RunRows(runs)[k]))
      {
        assert pairs[k - 1] == inp.KeyAt(RunRows(runs)[k - 1]) && pairs[k] == inp.KeyAt(RunRows(runs)[k]);
      }
    }
  }

  /** Where each touched partition's rows go. */
  type Plan = map<Name, seq<Write>>

  ghost predicate PlanRight(ps: Parts, inp: Input, b: Buckets, plan: Plan)
    requires PartsValid(ps) && inp.Shaped() && b.Keys <= ps.Keys
  {
    plan.Keys == b.Keys && forall n :: n in plan ==> PlanOk(ps[n], inp, b[n], plan[n])
  }

  ghost predicate AllLocatable(ps: Parts, inp: Input, b: Buckets)
    requires PartsValid(ps) && inp.Shaped() && b.Keys <= ps.Keys
  {
    forall n :: n in b ==> Locatable(ps[n].idx, inp, b[n])
  }

  /** Spans are within the input and never empty. */
  ghost predicate SpansFit(b: Buckets, rows: nat) {
    forall n :: n in b ==> RunsFit(b[n], rows) && forall k :: 0 <= k < |b[n]| ==> b[n][k].len > 0
  }

  lemma BucketsFit(scheme: Scheme, times: seq<int>, tt: TimeType, b: Buckets)
    requires SpansOf(scheme, times, tt, b)
    ensures SpansFit(b, |times|)
  {
    hide PartitionName, PartitionKey, RunsUpTo, RunsNamed;
    var keys := Keys(scheme, times, tt);
    var runs := RunsUpTo(keys, |times|);
    forall n, k | n in b && 0 <= k < |b[n]|
      ensures b[n][k].End() <= |times| && b[n][k].len > 0
    {
      NamedMember(scheme, times, tt, runs, n, b[n][k]);
      var i :| 0 <= i < |runs| && runs[i] == b[n][k];
      assert Uniform(keys, |times|, runs[i]);
    }
  }

  /** Locates every partition's rows; nothing is written until all are found. */
  method LocatePlan(ps: Parts, inp: Input, b: Buckets) returns (r: Result<Plan>)
    requires PartsValid(ps) && inp.Shaped() && inp.SignedTimes() && b.Keys <= ps.Keys && SpansFit(b, |inp.times|)
    ensures r.Ok? <==> AllLocatable(ps, inp, b)
    ensures r.Ok? ==> PlanRight(ps, inp, b, r.value)
  {
    hide Locatable, PlanOk, RunsFit;
    var plan: Plan := map[];
    var names := b.Keys;
    while names != {}
      invariant names <= b.Keys && plan.Keys == b.Keys - names
      invariant forall n :: n in plan ==> PlanOk(ps[n], inp, b[n], plan[n]) && Locatable(ps[n].idx, inp, b[n])
      decreases |names|
    {
      var n :| n in names;
      var ws := PlanPartition(ps[n], inp, b[n]);
      if ws.Err? { return Err(ws.error); }
      plan := plan[n := ws.value];
      names := names - {n};
    }
    return Ok(plan);
  }

  // ----- writing a partition

  /** A column after some writes: the input's cells laid over it, or untouched when the
      input does not have it. */
  ghost function Laid(was: Part, inp: Input, ws: seq<Write>, f: string): Col
    requires f in was.cols && inp.Shaped() && WritesFit(ws, |was.cols[f].cells|, |inp.times|)
  {
    if f in inp.cols then was.cols[f].(cells := Overlaid(was.cols[f].cells, inp.cols[f].cells, ws)) else was.cols[f]
  }

  /** All columns of the input laid over a partition. */
  ghost predicate Written(was: Part, now: Part, inp: Input, ws: seq<Write>)
    requires was.Valid() && inp.Shaped() && WritesFit(ws, was.idx.RowCount(), |inp.times|)
  {
    && now.idx == was.idx && now.cols.Keys == was.cols.Keys
    && forall f :: f in was.cols ==> ColumnWritten(was, now, inp, ws, f)
  }

  ghost predicate ColumnWritten(was: Part, now: Part, inp: Input, ws: seq<Write>, f: string)
    requires was.Valid() && inp.Shaped() && WritesFit(ws, was.idx.RowCount(), |inp.times|)
    requires f in was.cols && now.cols.Keys == was.cols.Keys
  {
    now.cols[f] == Laid(was, inp, ws, f)
  }

  /** A NULL for a column without room for it: the slice is refused as a whole. */
  predicate Refuses(col: Col, src: InCol, w: Write)
    requires w.start + w.len <= |src.cells|
  {
    !col.nullable && exists i :: w.start <= i < w.start + w.len && src.cells[i].None?
  }

  /** No slice is refused by any column. */
  ghost predicate NothingRefused(part: Part, inp: Input, ws: seq<Write>)
    requires part.Valid() && inp.Shaped() && inp.cols.Keys <= part.cols.Keys && WritesFit(ws, part.idx.RowCount(), |inp.times|)
  {
    forall k, f :: 0 <= k < |ws| && f in inp.cols ==> !Refuses(part.cols[f], inp.cols[f], ws[k])
  }

  /** One slice of the input, column by column in no particular order, up to the first
      column that refuses it. `done` are the columns written. */
  method WriteSlice(part: Part, inp: Input, w: Write) returns (ok: bool, out: Part, ghost done: set<string>)
    requires part.Valid() && inp.Shaped() && inp.cols.Keys <= part.cols.Keys
    requires w.grid + w.len <= part.idx.RowCount() && w.start + w.len <= |inp.times|
    ensures out.idx == part.idx && out.cols.Keys == part.cols.Keys && done <= inp.cols.Keys
    ensures forall f :: f in part.cols ==> (out.cols[f] == if f in done then SliceLaid(part.cols[f], inp.cols[f], w) else part.cols[f])
    ensures ok <==> forall f :: f in inp.cols ==> !Refuses(part.cols[f], inp.cols[f], w)
    ensures ok ==> done == inp.cols.Keys
    ensures !ok ==> exists f :: f in inp.cols && f !in done && Refuses(part.cols[f], inp.cols[f], w)
    ensures forall f :: f in done ==> !Refuses(part.cols[f], inp.cols[f], w)
  {
    hide Refuses, SliceLaid;
    out, done := part, {};
    var names := inp.cols.Keys;
    while names != {}
      invariant names <= inp.cols.Keys && done == inp.cols.Keys - names
      invariant out.idx == part.idx && out.cols.Keys == part.cols.Keys
      invariant forall f :: f in part.cols ==> (out.cols[f] == if f in done then SliceLaid(part.cols[f], inp.cols[f], w) else part.cols[f])
      invariant forall f :: f in done ==> !Refuses(part.cols[f], inp.cols[f], w)
      decreases |names|
    {
      var f :| f in names;
      if Refuses(out.cols[f], inp.cols[f], w) { return false, out, done; }
      out := Part(out.idx, out.cols[f := SliceLaid(out.cols[f], inp.cols[f], w)]);
      names, done := names - {f}, done + {f};
    }
    return true, out, done;
  }

  function SliceLaid(col: Col, src: InCol, w: Write): Col
    requires w.grid + w.len <= |col.cells| && w.start + w.len <= |src.cells|
  {
    col.(cells := Splice(col.cells, w.grid, src.cells[w.start..w.start + w.len]))
  }

  /** Where a refused write of a partition stopped: all slices before `at` are in every
      column, slice `at` in the columns `done`, and some other column refused it. */
  ghost predicate Halted(was: Part, now: Part, inp: Input, ws: seq<Write>, at: nat, done: set<string>)
    requires was.Valid() && inp.Shaped() && inp.cols.Keys <= was.cols.Keys && WritesFit(ws, was.idx.RowCount(), |inp.times|)
  {
    && at < |ws| && done <= inp.cols.Keys && now.idx == was.idx && now.cols.Keys == was.cols.Keys
    && (forall f :: f in was.cols ==> ColumnHalted(was, now, inp, ws, at, done, f))
    && (exists f :: f in inp.cols && f !in done && Refuses(was.cols[f], inp.cols[f], ws[at]))
    && (forall f :: f in done ==> !Refuses(was.cols[f], inp.cols[f], ws[at]))
    && (forall k, f :: 0 <= k < at && f in inp.cols ==> !Refuses(was.cols[f], inp.cols[f], ws[k]))
  }

  /** How many slices a column has taken. */
  function Taken(at: nat, done: set<string>, f: string): nat { if f in done then at + 1 else at }

  ghost predicate ColumnHalted(was: Part, now: Part, inp: Input, ws: seq<Write>, at: nat, done: set<string>, f: string)
    requires was.Valid() && inp.Shaped() && WritesFit(ws, was.idx.RowCount(), |inp.times|) && at < |ws|
    requires f in was.cols && now.cols.Keys == was.cols.Keys
  {
    PrefixFits(ws, Taken(at, done, f), was.idx.RowCount(), |inp.times|);
    now.cols[f] == Laid(was, inp, ws[..Taken(at, done, f)], f)
  }

  lemma PrefixFits(ws: seq<Write>, k: nat, rows: nat, input: nat)
    requires WritesFit(ws, rows, input) && k <= |ws|
    ensures WritesFit(ws[..k], rows, input)
  {
  }

  /** One slice of the input after the other, each to all its columns, up to the first
      refusal. */
  method WritePartition(part: Part, inp: Input, ws: seq<Write>)
    returns (ok: bool, out: Part, ghost at: nat, ghost done: set<string>)
    requires part.Valid() && inp.Shaped() && inp.cols.Keys <= part.cols.Keys && WritesFit(ws, part.idx.RowCount(), |inp.times|)
    ensures ok <==> NothingRefused(part, inp, ws)
    ensures ok ==> Written(part, out, inp, ws)
    ensures !ok ==> Halted(part, out, inp, ws, at, done)
  {
    hide Overlaid, Part.Valid, Written, Splice, Refuses, Halted, SliceLaid;
    PartCols(part);
    out, at, done := part, 0, {};
    assert ws[..0] == [];
    OverlaidNone(part, inp);
    for i := 0 to |ws|
      invariant WritesFit(ws[..i], part.idx.RowCount(), |inp.times|) && Written(part, out, inp, ws[..i])
      invariant forall k, f :: 0 <= k < i && f in inp.cols ==> !Refuses(part.cols[f], inp.cols[f], ws[k])
    {
      var w := ws[i];
      assert w.grid + w.len <= part.idx.RowCount() && w.start + w.len <= |inp.times|;
      WrittenSame(part, out, inp, ws[..i]);
      WrittenValid(part, out, inp, ws, i);
      ghost var before := out;
      ok, out, done := WriteSlice(out, inp, w);
      RefusesSame(part, before, inp, w);
      if !ok {
        at := i;
        HaltedHere(part, before, out, inp, ws, i, done);
        return;
      }
      WrittenStep(part, before, out, inp, ws, i);
    }
    assert ws[..|ws|] == ws;
    ok := true;
  }

  /** Columns keep their type and kind, so they refuse what they refused before. */
  lemma RefusesSame(was: Part, now: Part, inp: Input, w: Write)
    requires inp.Shaped() && SamePart(was, now) && inp.cols.Keys <= was.cols.Keys && w.start + w.len <= |inp.times|
    ensures forall f :: f in inp.cols ==> (Refuses(now.cols[f], inp.cols[f], w) <==> Refuses(was.cols[f], inp.cols[f], w))
  {
    forall f | f in inp.cols
      ensures Refuses(now.cols[f], inp.cols[f], w) <==> Refuses(was.cols[f], inp.cols[f], w)
    {
      assert SameCol(was.cols[f], now.cols[f]);
    }
  }

  lemma WrittenSame(part: Part, out: Part, inp: Input, ws: seq<Write>)
    requires part.Valid() && inp.Shaped() && WritesFit(ws, part.idx.RowCount(), |inp.times|) && Written(part, out, inp, ws)
    ensures SamePart(part, out)
  {
    hide Overlaid;
    forall f | f in part.cols ensures SameCol(part.cols[f], out.cols[f]) { assert ColumnWritten(part, out, inp, ws, f); }
  }

  /** Slices that are not refused keep every column valid. */
  lemma WrittenValid(part: Part, out: Part, inp: Input, ws: seq<Write>, i: nat)
    requires part.Valid() && inp.Shaped() && inp.cols.Keys <= part.cols.Keys && WritesFit(ws, part.idx.RowCount(), |inp.times|) && i <= |ws|
    requires WritesFit(ws[..i], part.idx.RowCount(), |inp.times|) && Written(part, out, inp, ws[..i])
    requires forall k, f :: 0 <= k < i && f in inp.cols ==> !Refuses(part.cols[f], inp.cols[f], ws[k])
    ensures out.Valid()
  {
    hide Overlaid, Refuses, LexIncreasing, Index.Valid;
    forall f | f in out.cols
      ensures out.cols[f].Valid(part.idx.RowCount())
    {
      assert ColumnWritten(part, out, inp, ws[..i], f);
      if f in inp.cols { LaidFull(part.cols[f], inp.cols[f], ws[..i]); }
    }
  }

  /** A column without NULLs stays without them. */
  lemma {:induction false} LaidFull(col: Col, src: InCol, ws: seq<Write>)
    requires WritesFit(ws, |col.cells|, |src.cells|) && (!col.nullable ==> forall i :: 0 <= i < |col.cells| ==> col.cells[i].Some?)
    requires forall k :: 0 <= k < |ws| ==> !Refuses(col, src, ws[k])
    ensures !col.nullable ==> forall i :: 0 <= i < |col.cells| ==> Overlaid(col.cells, src.cells, ws)[i].Some?
  {
    if ws != [] {
      var m := |ws| - 1;
      LaidFull(col, src, ws[..m]);
      assert !Refuses(col, src, ws[m]);
    }
  }

  lemma WrittenStep(part: Part, out: Part, next: Part, inp: Input, ws: seq<Write>, i: nat)
    requires part.Valid() && inp.Shaped() && WritesFit(ws, part.idx.RowCount(), |inp.times|) && i < |ws|
    requires WritesFit(ws[..i], part.idx.RowCount(), |inp.times|) && Written(part, out, inp, ws[..i]) && out.Valid()
    requires next.idx == out.idx && next.cols.Keys == out.cols.Keys && inp.cols.Keys <= part.cols.Keys
    requires ws[i].grid + ws[i].len <= part.idx.RowCount() && ws[i].start + ws[i].len <= |inp.times|
    requires forall f :: f in out.cols ==> (next.cols[f] == if f in inp.cols then SliceLaid(out.cols[f], inp.cols[f], ws[i]) else out.cols[f])
    ensures WritesFit(ws[..i + 1], part.idx.RowCount(), |inp.times|) && Written(part, next, inp, ws[..i + 1])
  {
    hide Overlaid, Part.Valid, Splice;
    PartCols(part);
    forall f | f in part.cols
      ensures ColumnWritten(part, next, inp, ws[..i + 1], f)
    {
      assert ColumnWritten(part, out, inp, ws[..i], f);
      if f in inp.cols { OverlaidMore(part.cols[f].cells, inp.cols[f].cells, ws, i); }
    }
  }

  lemma HaltedHere(part: Part, before: Part, out: Part, inp: Input, ws: seq<Write>, i: nat, done: set<string>)
    requires part.Valid() && inp.Shaped() && inp.cols.Keys <= part.cols.Keys && WritesFit(ws, part.idx.RowCount(), |inp.times|) && i < |ws|
    requires WritesFit(ws[..i], part.idx.RowCount(), |inp.times|) && Written(part, before, inp, ws[..i]) && before.Valid()
    requires out.idx == before.idx && out.cols.Keys == before.cols.Keys && done <= inp.cols.Keys
    requires ws[i].grid + ws[i].len <= part.idx.RowCount() && ws[i].start + ws[i].len <= |inp.times|
    requires forall f :: f in before.cols ==> (out.cols[f] == if f in done then SliceLaid(before.cols[f], inp.cols[f], ws[i]) else before.cols[f])
    requires exists f :: f in inp.cols && f !in done && Refuses(part.cols[f], inp.cols[f], ws[i])
    requires forall f :: f in done ==> !Refuses(part.cols[f], inp.cols[f], ws[i])
    requires forall k, f :: 0 <= k < i && f in inp.cols ==> !Refuses(part.cols[f], inp.cols[f], ws[k])
    ensures Halted(part, out, inp, ws, i, done)
  {
    hide Overlaid, Part.Valid, Splice, Refuses;
    PartCols(part);
    forall f | f in part.cols
      ensures ColumnHalted(part, out, inp, ws, i, done, f)
    {
      assert ColumnWritten(part, before, inp, ws[..i], f);
      if f in done { OverlaidMore(part.cols[f].cells, inp.cols[f].cells, ws, i); }
    }
  }

  lemma PartCols(part: Part)
    requires part.Valid()
    ensures forall f :: f in part.cols ==> |part.cols[f].cells| == part.idx.RowCount()
  {
  }

  lemma OverlaidNone(part: Part, inp: Input)
    requires part.Valid() && inp.Shaped()
    ensures WritesFit([], part.idx.RowCount(), |inp.times|) && Written(part, part, inp, [])
  {
  }

  lemma OverlaidMore(col: seq<CellValue>, src: seq<CellValue>, ws: seq<Write>, i: nat)
    requires WritesFit(ws, |col|, |src|) && i < |ws|
    ensures WritesFit(ws[..i], |col|, |src|) && WritesFit(ws[..i + 1], |col|, |src|)
    ensures ws[i].grid + ws[i].len <= |col| && ws[i].start + ws[i].len <= |src|
    ensures Overlaid(col, src, ws[..i + 1]) == Splice(Overlaid(col, src, ws[..i]), ws[i].grid, src[ws[i].start..ws[i].start + ws[i].len])
  {
    assert ws[..i + 1][..i] == ws[..i];
  }

  // ----- the whole write

  /** A row of a partition's spans is an input row of that partition, and the other way round. */
  lemma RunRowsAre(scheme: Scheme, times: seq<int>, tt: TimeType, b: Buckets, n: Name, row: nat)
    requires SpansOf(scheme, times, tt, b) && n in b
    ensures row in RunRows(b[n]) <==> row < |times| && PartitionName(scheme, times[row], tt) == n
  {
    hide PartitionName, SpansOf, RunRows;
    SpansOwn(scheme, times, tt, b, n);
    RunRowsMember(b[n], row);
    if row < |times| && PartitionName(scheme, times[row], tt) == n {
      var k := SpansCover(scheme, times, tt, b, row);
    }
    if k :| 0 <= k < |b[n]| && InSpan(b[n][k], row) { assert Owned(scheme, times, tt, n, b[n][k]); }
  }

  lemma {:induction false} RunRowsMember(runs: seq<Run>, row: nat)
    ensures row in RunRows(runs) <==> exists k :: 0 <= k < |runs| && InSpan(runs[k], row)
  {
    if runs != [] {
      var m := |runs| - 1;
      RunRowsMember(runs[..m], row);
      SpanMember(runs[m].start, runs[m].len, row);
      if k :| 0 <= k < m && InSpan(runs[..m][k], row) { assert InSpan(runs[k], row); }
      if k :| 0 <= k < |runs| && InSpan(runs[k], row) { assert k == m || InSpan(runs[..m][k], row); }
    }
  }

  /** Writing a partition by its plan leaves exactly the right cells. */
  lemma WrittenRight(was: Parts, now: Parts, inp: Input, scheme: Scheme, tt: TimeType, b: Buckets, n: Name, ws: seq<Write>)
    requires PartsValid(was) && inp.Shaped() && SpansOf(scheme, inp.times, tt, b) && n in was && n in now && n in b
    requires PlanOk(was[n], inp, b[n], ws) && Written(was[n], now[n], inp, ws)
    ensures SamePart(was[n], now[n]) && PartRight(was, now, inp, scheme, tt, n)
  {
    hide PartitionName, SpansOf, RunRows, GridRows, InputRows, Overlaid, Index.Rows, Hits, Touched;
    var part := was[n];
    WrittenSame(part, now[n], inp, ws);
    forall f, g: nat | f in part.cols && g < |part.cols[f].cells|
      ensures CellRight(was, now, inp, scheme, tt, n, f, g)
    {
      assert ColumnWritten(part, now[n], inp, ws, f);
      if f in inp.cols { CellWritten(was, now, inp, scheme, tt, b, n, ws, f, g); }
    }
  }

  lemma CellWritten(was: Parts, now: Parts, inp: Input, scheme: Scheme, tt: TimeType, b: Buckets, n: Name, ws: seq<Write>, f: string, g: nat)
    requires PartsValid(was) && inp.Shaped() && SpansOf(scheme, inp.times, tt, b) && n in was && n in now && n in b
    requires PlanOk(was[n], inp, b[n], ws) && f in was[n].cols && f in inp.cols && f in now[n].cols
    requires g < |was[n].cols[f].cells| && now[n].cols[f].cells == Overlaid(was[n].cols[f].cells, inp.cols[f].cells, ws)
    ensures CellRight(was, now, inp, scheme, tt, n, f, g)
  {
    hide PartitionName, SpansOf, RunRows, GridRows, InputRows, Overlaid, Index.Rows, LexIncreasing, Increasing;
    OverlaidExact(was[n].cols[f].cells, inp.cols[f].cells, ws);
    forall i: nat | Hits(was, inp, scheme, tt, n, g, i)
      ensures now[n].cols[f].cells[g] == inp.cols[f].cells[i]
    {
      var k := HitPlanned(was, inp, scheme, tt, b, n, ws, g, i);
    }
    if g in GridRows(ws) {
      var k :| 0 <= k < |GridRows(ws)| && GridRows(ws)[k] == g;
      PlannedHit(was, inp, scheme, tt, b, n, ws, k);
    }
  }

  /** An input row that is a row of the partition is in the plan. */
  lemma HitPlanned(was: Parts, inp: Input, scheme: Scheme, tt: TimeType, b: Buckets, n: Name, ws: seq<Write>, g: nat, i: nat) returns (k: nat)
    requires PartsValid(was) && inp.Shaped() && SpansOf(scheme, inp.times, tt, b) && n in was && n in b
    requires PlanOk(was[n], inp, b[n], ws) && Hits(was, inp, scheme, tt, n, g, i)
    ensures k < |GridRows(ws)| && GridRows(ws)[k] == g && InputRows(ws)[k] == i
  {
    hide PartitionName, SpansOf, RunRows, GridRows, InputRows, Index.Rows, LexIncreasing, Increasing;
    RunRowsAre(scheme, inp.times, tt, b, n, i);
    k :| 0 <= k < |InputRows(ws)| && InputRows(ws)[k] == i;
    GridDistinct(was[n].idx, g, GridRows(ws)[k]);
  }

  /** A planned write puts an input row at its own key. */
  lemma PlannedHit(was: Parts, inp: Input, scheme: Scheme, tt: TimeType, b: Buckets, n: Name, ws: seq<Write>, k: nat)
    requires PartsValid(was) && inp.Shaped() && SpansOf(scheme, inp.times, tt, b) && n in was && n in b
    requires PlanOk(was[n], inp, b[n], ws) && k < |GridRows(ws)|
    ensures Hits(was, inp, scheme, tt, n, GridRows(ws)[k], InputRows(ws)[k])
  {
    hide PartitionName, SpansOf, RunRows, GridRows, InputRows, Index.Rows, LexIncreasing, Increasing;
    assert InputRows(ws)[k] in RunRows(b[n]);
    RunRowsAre(scheme, inp.times, tt, b, n, InputRows(ws)[k]);
  }

  /** A partition without input rows is right as it is. */
  lemma UntouchedRight(was: Parts, now: Parts, inp: Input, scheme: Scheme, tt: TimeType, b: Buckets, n: Name)
    requires PartsValid(was) && inp.Shaped() && SpansOf(scheme, inp.times, tt, b) && n in was && n in now && n !in b
    requires now[n] == was[n]
    ensures SamePart(was[n], now[n]) && PartRight(was, now, inp, scheme, tt, n)
  {
    hide PartitionName, SpansOf, Index.Rows;
    forall g: nat, i: nat
      ensures !Hits(was, inp, scheme, tt, n, g, i)
    {
      if i < |inp.times| { var k := SpansCover(scheme, inp.times, tt, b, i); }
    }
  }

  class TableHandle {
    var parts: Parts
    const scheme: Scheme
    const tt: TimeType
    const writable: bool

    constructor (parts: Parts, scheme: Scheme, tt: TimeType, writable: bool)
      ensures this.parts == parts && this.scheme == scheme && this.tt == tt && this.writable == writable
    {
      this.parts, this.scheme, this.tt, this.writable := parts, scheme, tt, writable;
    }

    /** Every key of the input is in the index of its partition. */
    ghost predicate Accepts(inp: Input)
      reads this
      requires PartsValid(parts) && inp.Shaped()
    {
      StrictlySorted(inp.syms, inp.times)
      && exists b :: SpansOf(scheme, inp.times, tt, b) && b.Keys <= parts.Keys && AllLocatable(parts, inp, b)
    }

    /** Every column of the input has the stored type, in every partition. */
    ghost predicate TypesMatch(inp: Input)
      reads this
      requires forall n :: n in parts ==> inp.cols.Keys <= parts[n].cols.Keys
    {
      forall n, f :: n in parts && f in inp.cols ==> parts[n].cols[f].dt == inp.cols[f].dt
    }

    /** All partitions and columns being there, a write succeeds exactly when the input is
        strictly sorted, every key is found, every type matches and no NULL goes to a column
        without room for it; it is then a map update. A write refused before the first slice
        changes nothing. A NULL without room is met while writing, and what was written
        before it stays. */
    method Write(inp: Input) returns (r: Result<()>, ghost halt: Option<Halt>)
      requires PartsValid(parts) && inp.Shaped() && inp.SignedTimes()
      requires forall i :: 0 <= i < |inp.times| ==> PartitionName(scheme, inp.times[i], tt) in parts
      requires forall n :: n in parts ==> inp.cols.Keys <= parts[n].cols.Keys
      modifies this`parts
      ensures PartsValid(parts)
      ensures r.Ok? <==> writable && (|inp.times| == 0 || (old(Accepts(inp)) && old(TypesMatch(inp)) && NullsFit(old(parts), inp, scheme, tt)))
      ensures r.Ok? ==> Updated(old(parts), parts, inp, scheme, tt)
      ensures !(writable && old(Accepts(inp)) && old(TypesMatch(inp))) && r.Err? ==> parts == old(parts)
      ensures writable && old(Accepts(inp)) && old(TypesMatch(inp)) && r.Err? ==>
                halt.Some? && HaltedTable(old(parts), parts, inp, scheme, tt, halt.value)
    {
      hide PartitionName, SpansOf, Locatable, PlanOk, StrictlySorted, PartRight, Part.Valid, Written, LexLess,
           HaltedTable, NullsFit, PlanFits, AllLocatable;
      halt := None;
      if !writable { return Err(InvalidState), halt; }
      ghost var was := parts;
      if |inp.times| == 0 {
        NothingWritten(parts, inp, scheme, tt);
        return Ok(()), halt;
      }
      var scanned := ScanPartitionRuns(inp.syms, inp.times, scheme, tt);
      if scanned.Err? { return Err(scanned.error), halt; }
      var b := scanned.value;
      BucketsFit(scheme, inp.times, tt, b);
      BucketsKnown(parts, inp, scheme, tt, b);
      var planned := LocatePlan(parts, inp, b);
      SpansUnique(parts, inp, scheme, tt, b);
      if planned.Err? { return Err(planned.error), halt; }
      var typed := CheckTypes(parts, inp);
      if !typed { return Err(Invalid), halt; }
      PlansFit(parts, inp, b, planned.value);
      var ok, out, stop := WriteParts(parts, inp, scheme, tt, b, planned.value);
      parts, halt := out, stop;
      r := if ok then Ok(()) else Err(Invalid);
    }
  }

  /** The write phase: one partition after the other, in no particular order, up to the
      first refusal. */
  method WriteParts(ps: Parts, inp: Input, ghost scheme: Scheme, ghost tt: TimeType, b: Buckets, plan: Plan)
    returns (ok: bool, out: Parts, ghost halt: Option<Halt>)
    requires PartsValid(ps) && inp.Shaped() && SpansOf(scheme, inp.times, tt, b) && b.Keys <= ps.Keys && PlanRight(ps, inp, b, plan)
    requires forall i :: 0 <= i < |inp.times| ==> PartitionName(scheme, inp.times[i], tt) in ps
    requires forall n :: n in ps ==> inp.cols.Keys <= ps[n].cols.Keys
    requires forall n :: n in b ==> PlanFits(ps[n], inp, plan[n])
    ensures PartsValid(out)
    ensures ok <==> NullsFit(ps, inp, scheme, tt)
    ensures ok ==> Updated(ps, out, inp, scheme, tt)
    ensures !ok ==> halt.Some? && HaltedTable(ps, out, inp, scheme, tt, halt.value)
  {
    hide PartitionName, SpansOf, PlanOk, Part.Valid, Written, Halted, HaltedTable, NothingRefused, NullsFit,
         Underway, PlanFits, Updated;
    halt, out := None, ps;
    var names := b.Keys;
    UnderwayStart(ps, inp, scheme, tt, b, plan);
    while names != {}
      invariant names <= b.Keys && Underway(ps, out, inp, scheme, tt, b, plan, names)
      decreases |names|
    {
      var n :| n in names;
      assert PlanOk(ps[n], inp, b[n], plan[n]) && PlanFits(ps[n], inp, plan[n]);
      FitsMeans(ps[n], inp, plan[n]);
      UnderwayAt(ps, out, inp, scheme, tt, b, plan, names, n);
      var good, part, at, done := WritePartition(out[n], inp, plan[n]);
      ghost var before := out;
      out := out[n := part];
      if !good {
        halt := Some(Halt(b, b.Keys - names, n, plan[n], at, done));
        UnderwayHalt(ps, before, out, inp, scheme, tt, b, plan, names, halt.value);
        return false, out, halt;
      }
      UnderwayStep(ps, before, out, inp, scheme, tt, b, plan, names, n);
      names := names - {n};
    }
    UnderwayEnd(ps, out, inp, scheme, tt, b, plan);
    return true, out, halt;
  }

  /** The partitions in `names` are still to be written. */
  ghost predicate Underway(was: Parts, now: Parts, inp: Input, scheme: Scheme, tt: TimeType, b: Buckets, plan: Plan, names: set<Name>)
    requires PartsValid(was) && inp.Shaped() && b.Keys <= was.Keys && PlanRight(was, inp, b, plan) && names <= b.Keys
    requires (forall n :: n in was ==> inp.cols.Keys <= was[n].cols.Keys) && forall n :: n in b ==> PlanFits(was[n], inp, plan[n])
  {
    && now.Keys == was.Keys
    && (forall n :: n in was && (n in names || n !in b) ==> now[n] == was[n])
    && forall n :: n in b && n !in names ==> PartDone(was, now, inp, scheme, tt, plan, n)
  }

  lemma FitsMeans(part: Part, inp: Input, ws: seq<Write>)
    requires part.Valid() && PlanFits(part, inp, ws)
    ensures WritesFit(ws, part.idx.RowCount(), |inp.times|)
  {
  }

  lemma UnderwayStart(was: Parts, inp: Input, scheme: Scheme, tt: TimeType, b: Buckets, plan: Plan)
    requires PartsValid(was) && inp.Shaped() && b.Keys <= was.Keys && PlanRight(was, inp, b, plan)
    requires (forall n :: n in was ==> inp.cols.Keys <= was[n].cols.Keys) && forall n :: n in b ==> PlanFits(was[n], inp, plan[n])
    ensures Underway(was, was, inp, scheme, tt, b, plan, b.Keys)
  {
    hide PlanOk, PlanFits, PartDone, Part.Valid;
  }

  lemma UnderwayAt(was: Parts, now: Parts, inp: Input, scheme: Scheme, tt: TimeType, b: Buckets, plan: Plan, names: set<Name>, n: Name)
    requires PartsValid(was) && inp.Shaped() && b.Keys <= was.Keys && PlanRight(was, inp, b, plan) && names <= b.Keys && n in names
    requires (forall m :: m in was ==> inp.cols.Keys <= was[m].cols.Keys) && forall m :: m in b ==> PlanFits(was[m], inp, plan[m])
    requires Underway(was, now, inp, scheme, tt, b, plan, names)
    ensures now.Keys == was.Keys && now[n] == was[n]
  {
    hide PlanOk, PlanFits, PartDone, Part.Valid;
  }

  lemma UnderwayStep(was: Parts, before: Parts, now: Parts, inp: Input, scheme: Scheme, tt: TimeType, b: Buckets, plan: Plan,
                     names: set<Name>, n: Name)
    requires PartsValid(was) && inp.Shaped() && b.Keys <= was.Keys && PlanRight(was, inp, b, plan) && names <= b.Keys && n in names
    requires (forall m :: m in was ==> inp.cols.Keys <= was[m].cols.Keys) && forall m :: m in b ==> PlanFits(was[m], inp, plan[m])
    requires SpansOf(scheme, inp.times, tt, b) && Underway(was, before, inp, scheme, tt, b, plan, names)
    requires n in now && now == before[n := now[n]] && WritesFit(plan[n], was[n].idx.RowCount(), |inp.times|)
    requires Written(was[n], now[n], inp, plan[n]) && NothingRefused(was[n], inp, plan[n])
    ensures Underway(was, now, inp, scheme, tt, b, plan, names - {n})
  {
    hide PartitionName, SpansOf, PlanOk, Part.Valid, Written, NothingRefused, PlanFits, PartDone, WritesFit;
    assert PlanOk(was[n], inp, b[n], plan[n]);
    DoneNow(was, now, inp, scheme, tt, b, plan, n);
    forall m | m in b && m !in names
      ensures PartDone(was, now, inp, scheme, tt, plan, m)
    {
      DoneSame(was, before, now, inp, scheme, tt, plan, m);
    }
  }

  lemma UnderwayHalt(was: Parts, before: Parts, now: Parts, inp: Input, scheme: Scheme, tt: TimeType, b: Buckets, plan: Plan,
                     names: set<Name>, h: Halt)
    requires PartsValid(was) && inp.Shaped() && b.Keys <= was.Keys && PlanRight(was, inp, b, plan) && names <= b.Keys
    requires forall i :: 0 <= i < |inp.times| ==> PartitionName(scheme, inp.times[i], tt) in was
    requires (forall m :: m in was ==> inp.cols.Keys <= was[m].cols.Keys) && forall m :: m in b ==> PlanFits(was[m], inp, plan[m])
    requires SpansOf(scheme, inp.times, tt, b) && Underway(was, before, inp, scheme, tt, b, plan, names)
    requires h.spans == b && h.written == b.Keys - names && h.name in names && h.ws == plan[h.name]
    requires h.name in now && now == before[h.name := now[h.name]] && WritesFit(h.ws, was[h.name].idx.RowCount(), |inp.times|)
    requires Halted(was[h.name], now[h.name], inp, h.ws, h.at, h.cols) && !NothingRefused(was[h.name], inp, h.ws)
    ensures HaltedTable(was, now, inp, scheme, tt, h) && PartsValid(now) && !NullsFit(was, inp, scheme, tt)
  {
    hide PartitionName, SpansOf, PlanOk, Part.Valid, Halted, NothingRefused, PlanFits, PartDone, WritesFit,
         HaltedTable, NullsFit;
    var n := h.name;
    assert PlanOk(was[n], inp, b[n], plan[n]);
    HaltedSame(was[n], now[n], inp, h.ws, h.at, h.cols);
    forall m | m in b && m !in names
      ensures PartDone(was, now, inp, scheme, tt, plan, m)
    {
      DoneSame(was, before, now, inp, scheme, tt, plan, m);
    }
    HaltedMeans(was, now, inp, scheme, tt, plan, h);
    RefusedRow(was, inp, scheme, tt, b, n, h.ws);
  }

  lemma UnderwayEnd(was: Parts, now: Parts, inp: Input, scheme: Scheme, tt: TimeType, b: Buckets, plan: Plan)
    requires PartsValid(was) && inp.Shaped() && b.Keys <= was.Keys && PlanRight(was, inp, b, plan) && SpansOf(scheme, inp.times, tt, b)
    requires forall i :: 0 <= i < |inp.times| ==> PartitionName(scheme, inp.times[i], tt) in was
    requires (forall m :: m in was ==> inp.cols.Keys <= was[m].cols.Keys) && forall m :: m in b ==> PlanFits(was[m], inp, plan[m])
    requires Underway(was, now, inp, scheme, tt, b, plan, {})
    ensures NullsFit(was, inp, scheme, tt) && Updated(was, now, inp, scheme, tt) && PartsValid(now)
  {
    hide PartitionName, SpansOf, PlanOk, Part.Valid, PlanFits, PartDone, NullsFit, Updated;
    AllDone(was, now, inp, scheme, tt, b, plan);
  }

  /** A partition written to the end. */
  ghost predicate PartDone(was: Parts, now: Parts, inp: Input, scheme: Scheme, tt: TimeType, plan: Plan, n: Name)
    requires PartsValid(was) && inp.Shaped() && n in was && n in now && n in plan && PlanFits(was[n], inp, plan[n])
    requires inp.cols.Keys <= was[n].cols.Keys
  {
    && SamePart(was[n], now[n]) && PartRight(was, now, inp, scheme, tt, n) && now[n].Valid()
    && NothingRefused(was[n], inp, plan[n])
  }

  lemma DoneSame(was: Parts, a: Parts, c: Parts, inp: Input, scheme: Scheme, tt: TimeType, plan: Plan, n: Name)
    requires PartsValid(was) && inp.Shaped() && n in was && n in a && n in c && a[n] == c[n] && n in plan
    requires inp.cols.Keys <= was[n].cols.Keys && PlanFits(was[n], inp, plan[n]) && PartDone(was, a, inp, scheme, tt, plan, n)
    ensures PartDone(was, c, inp, scheme, tt, plan, n)
  {
    hide PartRight, NothingRefused, Part.Valid;
    PartSame(was, a, c, inp, scheme, tt, n);
  }

  lemma DoneNow(was: Parts, now: Parts, inp: Input, scheme: Scheme, tt: TimeType, b: Buckets, plan: Plan, n: Name)
    requires PartsValid(was) && inp.Shaped() && SpansOf(scheme, inp.times, tt, b) && n in was && n in now && n in b && n in plan
    requires inp.cols.Keys <= was[n].cols.Keys && PlanFits(was[n], inp, plan[n]) && PlanOk(was[n], inp, b[n], plan[n])
    requires Written(was[n], now[n], inp, plan[n]) && NothingRefused(was[n], inp, plan[n])
    ensures PartDone(was, now, inp, scheme, tt, plan, n)
  {
    hide PartRight, SpansOf, NothingRefused, PlanOk, Written, Part.Valid;
    WrittenRight(was, now, inp, scheme, tt, b, n, plan[n]);
    WrittenWhole(was[n], now[n], inp, plan[n]);
  }

  lemma AllDone(was: Parts, now: Parts, inp: Input, scheme: Scheme, tt: TimeType, b: Buckets, plan: Plan)
    requires PartsValid(was) && inp.Shaped() && SpansOf(scheme, inp.times, tt, b) && b.Keys <= was.Keys && PlanRight(was, inp, b, plan)
    requires forall i :: 0 <= i < |inp.times| ==> PartitionName(scheme, inp.times[i], tt) in was
    requires forall n :: n in was ==> inp.cols.Keys <= was[n].cols.Keys
    requires forall n :: n in b ==> PlanFits(was[n], inp, plan[n])
    requires was.Keys == now.Keys && (forall n :: n in was && n !in b ==> now[n] == was[n])
    requires forall n :: n in b ==> PartDone(was, now, inp, scheme, tt, plan, n)
    ensures NullsFit(was, inp, scheme, tt) && Updated(was, now, inp, scheme, tt) && PartsValid(now)
  {
    hide PartitionName, SpansOf, PlanOk, PartRight, Part.Valid, NothingRefused, NullsFit;
    forall n | n in was
      ensures SamePart(was[n], now[n]) && PartRight(was, now, inp, scheme, tt, n) && now[n].Valid()
    {
      if n in b { assert PartDone(was, now, inp, scheme, tt, plan, n); }
      else { UntouchedRight(was, now, inp, scheme, tt, b, n); }
    }
    AllFit(was, inp, scheme, tt, b, plan);
  }

  lemma PlansFit(ps: Parts, inp: Input, b: Buckets, plan: Plan)
    requires PartsValid(ps) && inp.Shaped() && b.Keys <= ps.Keys && PlanRight(ps, inp, b, plan)
    ensures forall n :: n in b ==> PlanFits(ps[n], inp, plan[n])
  {
    hide PlanOk, PlanFits;
    forall n | n in b
      ensures PlanFits(ps[n], inp, plan[n])
    {
      PlanIsFit(ps[n], inp, b[n], plan[n]);
    }
  }

  /** The type check over all partitions, before anything is written. */
  method CheckTypes(ps: Parts, inp: Input) returns (ok: bool)
    requires forall n :: n in ps ==> inp.cols.Keys <= ps[n].cols.Keys
    ensures ok <==> forall n, f :: n in ps && f in inp.cols ==> ps[n].cols[f].dt == inp.cols[f].dt
  {
    var names := ps.Keys;
    while names != {}
      invariant names <= ps.Keys
      invariant forall n, f :: n in ps && n !in names && f in inp.cols ==> ps[n].cols[f].dt == inp.cols[f].dt
      decreases |names|
    {
      var n :| n in names;
      if exists f | f in inp.cols :: ps[n].cols[f].dt != inp.cols[f].dt { return false; }
      names := names - {n};
    }
    return true;
  }

  /** No input row brings a NULL to a column of its partition without room for it. */
  ghost predicate NullsFit(ps: Parts, inp: Input, scheme: Scheme, tt: TimeType)
    requires inp.Shaped()
    requires forall i :: 0 <= i < |inp.times| ==> PartitionName(scheme, inp.times[i], tt) in ps
    requires forall n :: n in ps ==> inp.cols.Keys <= ps[n].cols.Keys
  {
    forall i, f :: 0 <= i < |inp.times| && f in inp.cols ==> Fits(ps[PartitionName(scheme, inp.times[i], tt)].cols[f], inp.cols[f].cells[i])
  }

  predicate Fits(col: Col, cell: CellValue) { col.nullable || cell.Some? }

  /** Where a refused write of a table stopped: the spans of the input, the partitions
      already written, and the place in the one that refused. */
  datatype Halt = Halt(spans: Buckets, written: set<Name>, name: Name, ws: seq<Write>, at: nat, cols: set<string>)

  /** What a write stopped by a NULL leaves: the partitions written before are complete, the
      refusing one is halted, and all others are as they were. */
  ghost predicate HaltedTable(was: Parts, now: Parts, inp: Input, scheme: Scheme, tt: TimeType, h: Halt)
    requires PartsValid(was) && inp.Shaped() && forall n :: n in was ==> inp.cols.Keys <= was[n].cols.Keys
  {
    && SameShape(was, now) && SpansOf(scheme, inp.times, tt, h.spans) && h.name in was && h.name in h.spans
    && h.name !in h.written && h.written <= was.Keys && h.written <= h.spans.Keys
    && (forall n :: n in h.written ==> PartRight(was, now, inp, scheme, tt, n))
    && (forall n :: n in was && n !in h.written && n != h.name ==> now[n] == was[n])
    && PlanOk(was[h.name], inp, h.spans[h.name], h.ws)
    && Halted(was[h.name], now[h.name], inp, h.ws, h.at, h.cols)
  }

  lemma HaltedMeans(was: Parts, now: Parts, inp: Input, scheme: Scheme, tt: TimeType, plan: Plan, h: Halt)
    requires PartsValid(was) && inp.Shaped() && forall n :: n in was ==> inp.cols.Keys <= was[n].cols.Keys
    requires was.Keys == now.Keys && SpansOf(scheme, inp.times, tt, h.spans) && h.name in was && h.name in h.spans
    requires h.name !in h.written && h.written <= was.Keys && h.written <= h.spans.Keys
    requires h.spans.Keys <= plan.Keys && h.spans.Keys <= was.Keys && forall n :: n in h.spans ==> PlanFits(was[n], inp, plan[n])
    requires forall n :: n in h.written ==> PartDone(was, now, inp, scheme, tt, plan, n)
    requires forall n :: n in was && n !in h.written && n != h.name ==> now[n] == was[n]
    requires PlanOk(was[h.name], inp, h.spans[h.name], h.ws) && PlanFits(was[h.name], inp, h.ws)
    requires Halted(was[h.name], now[h.name], inp, h.ws, h.at, h.cols)
    requires SamePart(was[h.name], now[h.name]) && now[h.name].Valid()
    ensures HaltedTable(was, now, inp, scheme, tt, h) && PartsValid(now)
  {
    hide PartRight, SpansOf, PlanOk, Halted, Part.Valid, NothingRefused, PartDone;
    forall n | n in was
      ensures SamePart(was[n], now[n]) && now[n].Valid()
    {
      if n in h.written { DoneShape(was, now, inp, scheme, tt, plan, n); }
    }
    forall n | n in h.written
      ensures PartRight(was, now, inp, scheme, tt, n)
    {
      DoneShape(was, now, inp, scheme, tt, plan, n);
    }
  }

  lemma DoneShape(was: Parts, now: Parts, inp: Input, scheme: Scheme, tt: TimeType, plan: Plan, n: Name)
    requires PartsValid(was) && inp.Shaped() && n in was && n in now && n in plan && PlanFits(was[n], inp, plan[n])
    requires inp.cols.Keys <= was[n].cols.Keys && PartDone(was, now, inp, scheme, tt, plan, n)
    ensures SamePart(was[n], now[n]) && PartRight(was, now, inp, scheme, tt, n) && now[n].Valid()
  {
  }

  /** A halted partition is a valid one with the same columns. */
  lemma HaltedSame(was: Part, now: Part, inp: Input, ws: seq<Write>, at: nat, done: set<string>)
    requires was.Valid() && inp.Shaped() && inp.cols.Keys <= was.cols.Keys && WritesFit(ws, was.idx.RowCount(), |inp.times|)
    requires Halted(was, now, inp, ws, at, done)
    ensures SamePart(was, now) && now.Valid()
  {
    hide Overlaid, Refuses, LexIncreasing, Index.Valid;
    forall f | f in was.cols
      ensures SameCol(was.cols[f], now.cols[f]) && now.cols[f].Valid(was.idx.RowCount())
    {
      assert ColumnHalted(was, now, inp, ws, at, done, f);
      if f in inp.cols {
        var k := Taken(at, done, f);
        PrefixFits(ws, k, was.idx.RowCount(), |inp.times|);
        LaidFull(was.cols[f], inp.cols[f], ws[..k]);
      }
    }
  }

  lemma WrittenWhole(was: Part, now: Part, inp: Input, ws: seq<Write>)
    requires was.Valid() && inp.Shaped() && inp.cols.Keys <= was.cols.Keys && WritesFit(ws, was.idx.RowCount(), |inp.times|)
    requires Written(was, now, inp, ws) && NothingRefused(was, inp, ws)
    ensures now.Valid()
  {
    hide Part.Valid, Written, Refuses;
    assert ws[..|ws|] == ws;
    WrittenValid(was, now, inp, ws, |ws|);
  }

  /** Slices that are refused carry an input row that does not fit. */
  lemma RefusedRow(ps: Parts, inp: Input, scheme: Scheme, tt: TimeType, b: Buckets, n: Name, ws: seq<Write>)
    requires PartsValid(ps) && inp.Shaped() && SpansOf(scheme, inp.times, tt, b) && n in ps && n in b
    requires forall i :: 0 <= i < |inp.times| ==> PartitionName(scheme, inp.times[i], tt) in ps
    requires forall m :: m in ps ==> inp.cols.Keys <= ps[m].cols.Keys
    requires PlanOk(ps[n], inp, b[n], ws) && PlanFits(ps[n], inp, ws) && !NothingRefused(ps[n], inp, ws)
    ensures !NullsFit(ps, inp, scheme, tt)
  {
    hide PartitionName, SpansOf, RunRows, GridRows, InputRows, Index.Rows, Increasing;
    var k, f :| 0 <= k < |ws| && f in inp.cols && Refuses(ps[n].cols[f], inp.cols[f], ws[k]);
    var i :| ws[k].start <= i < ws[k].start + ws[k].len && inp.cols[f].cells[i].None?;
    WriteCovers(ws, k, i);
    RunRowsAre(scheme, inp.times, tt, b, n, i);
    assert !Fits(ps[PartitionName(scheme, inp.times[i], tt)].cols[f], inp.cols[f].cells[i]);
  }

  lemma {:induction false} WriteCovers(ws: seq<Write>, k: nat, i: nat)
    requires k < |ws| && ws[k].start <= i < ws[k].start + ws[k].len
    ensures i in InputRows(ws)
  {
    var m := |ws| - 1;
    SpanMember(ws[m].start, ws[m].len, i);
    if k < m { WriteCovers(ws[..m], k, i); }
  }

  lemma {:induction false} CoveredBy(ws: seq<Write>, i: nat) returns (k: nat)
    requires i in InputRows(ws)
    ensures k < |ws| && ws[k].start <= i < ws[k].start + ws[k].len
  {
    var m := |ws| - 1;
    SpanMember(ws[m].start, ws[m].len, i);
    if i in Span(ws[m].start, ws[m].len) { k := m; } else { k := CoveredBy(ws[..m], i); }
  }

  /** When no slice of any partition is refused, every input row fits. */
  lemma AllFit(ps: Parts, inp: Input, scheme: Scheme, tt: TimeType, b: Buckets, plan: Plan)
    requires PartsValid(ps) && inp.Shaped() && SpansOf(scheme, inp.times, tt, b) && b.Keys <= ps.Keys && PlanRight(ps, inp, b, plan)
    requires forall i :: 0 <= i < |inp.times| ==> PartitionName(scheme, inp.times[i], tt) in ps
    requires forall m :: m in ps ==> inp.cols.Keys <= ps[m].cols.Keys
    requires forall n :: n in b ==> PlanFits(ps[n], inp, plan[n]) && NothingRefused(ps[n], inp, plan[n])
    ensures NullsFit(ps, inp, scheme, tt)
  {
    hide PartitionName, SpansOf, RunRows, GridRows, InputRows, Index.Rows, Increasing;
    forall i, f | 0 <= i < |inp.times| && f in inp.cols
      ensures Fits(ps[PartitionName(scheme, inp.times[i], tt)].cols[f], inp.cols[f].cells[i])
    {
      var n := PartitionName(scheme, inp.times[i], tt);
      var q := SpansCover(scheme, inp.times, tt, b, i);
      RunRowsAre(scheme, inp.times, tt, b, n, i);
      assert PlanOk(ps[n], inp, b[n], plan[n]);
      var k := CoveredBy(plan[n], i);
      assert !Refuses(ps[n].cols[f], inp.cols[f], plan[n][k]);
    }
  }

  ghost predicate PlanFits(part: Part, inp: Input, ws: seq<Write>)
    requires part.Valid()
  {
    WritesFit(ws, part.idx.RowCount(), |inp.times|)
  }

  lemma PlanIsFit(part: Part, inp: Input, runs: seq<Run>, ws: seq<Write>)
    requires part.Valid() && inp.Shaped() && PlanOk(part, inp, runs, ws)
    ensures PlanFits(part, inp, ws)
  {
  }

  /** What is right of a partition depends on that partition only. */
  lemma PartSame(was: Parts, a: Parts, c: Parts, inp: Input, scheme: Scheme, tt: TimeType, n: Name)
    requires PartsValid(was) && inp.Shaped() && n in was && n in a && n in c && a[n] == c[n] && SamePart(was[n], a[n])
    requires PartRight(was, a, inp, scheme, tt, n)
    ensures PartRight(was, c, inp, scheme, tt, n)
  {
    forall f, g: nat | f in was[n].cols && g < |was[n].cols[f].cells|
      ensures CellRight(was, c, inp, scheme, tt, n, f, g)
    {
      assert CellRight(was, a, inp, scheme, tt, n, f, g);
    }
  }

  lemma NothingWritten(ps: Parts, inp: Input, scheme: Scheme, tt: TimeType)
    requires PartsValid(ps) && inp.Shaped() && |inp.times| == 0
    ensures Updated(ps, ps, inp, scheme, tt)
  {
    hide PartitionName, Index.Rows;
  }

  lemma BucketsKnown(ps: Parts, inp: Input, scheme: Scheme, tt: TimeType, b: Buckets)
    requires SpansOf(scheme, inp.times, tt, b) && inp.Shaped()
    requires forall i :: 0 <= i < |inp.times| ==> PartitionName(scheme, inp.times[i], tt) in ps
    ensures b.Keys <= ps.Keys
  {
    hide PartitionName, RunsUpTo, RunsNamed, PartitionKey;
    forall n | n in b
      ensures n in ps
    {
      var runs := RunsUpTo(Keys(scheme, inp.times, tt), |inp.times|);
      assert b[n] != [];
      NamedMember(scheme, inp.times, tt, runs, n, b[n][0]);
    }
  }

  /** The spans of an input are unique, so acceptance speaks of the ones computed. */
  lemma SpansUnique(ps: Parts, inp: Input, scheme: Scheme, tt: TimeType, b: Buckets)
    requires SpansOf(scheme, inp.times, tt, b)
    ensures forall c :: SpansOf(scheme, inp.times, tt, c) ==> c == b
  {
    hide PartitionName, RunsUpTo, RunsNamed, PartitionKey;
    forall c | SpansOf(scheme, inp.times, tt, c)
      ensures c == b
    {
      assert c.Keys == b.Keys;
      forall n | n in b ensures c[n] == b[n] { }
    }
  }
}
