/** A new column for a partition, filled from the rows of an input that are about to be
    written to it. */
module AlignedColumn {
  import opened Bits
  import opened Bitmap
  import opened Cells
  import opened Chunk
  import opened ChunkStream
  import opened Columns
  import opened FieldHandles
  import opened Formats
  import opened Order
  import opened WriteTable

  /** The values of a view, every row taken as valid. */
  ghost function RawCells(v: View, s: nat): (r: seq<CellValue>)
    requires ViewValid(v, s)
    ensures |r| == Rows(v)
  {
    ViewSize(v, s);
    CellsFrom(ViewValues(v), Same(true, Rows(v)), s)
  }

  function NoCell(rows: nat): (r: seq<CellValue>)
    ensures |r| == rows && forall i :: 0 <= i < rows ==> r[i] == None
  {
    seq(rows, _ => None)
  }

  /** The column under construction. */
  ghost predicate Aligned(values: seq<byte>, bits: seq<byte>, s: nat, rows: nat, src: seq<CellValue>, ws: seq<Write>) {
    && |values| == rows * s && rows <= 8 * |bits|
    && WritesFit(ws, rows, |src|)
    && CellsFrom(values, BitsOf(bits, 0, rows), s) == Overlaid(NoCell(rows), src, ws)
  }

  lemma AlignedStart(values: seq<byte>, bits: seq<byte>, s: nat, rows: nat, src: seq<CellValue>)
    requires |values| == rows * s && |bits| == ValiditySize(rows) && forall i :: 0 <= i < |bits| ==> bits[i] == 0
    ensures Aligned(values, bits, s, rows, src, [])
  {
    BitsRoom(|bits|, rows);
    ZeroBits(bits, rows);
  }

  /** One write: values copied, and the rows marked valid whatever the input says. */
  ghost predicate Filled(values: seq<byte>, bits: seq<byte>, values': seq<byte>, bits': seq<byte>, s: nat, v: View, w: Write)
    requires ViewValid(v, s)
  {
    && w.start * s <= (w.start + w.len) * s <= |ViewValues(v)|
    && w.grid * s + |ViewValues(v)[w.start * s..(w.start + w.len) * s]| <= |values|
    && values' == Splice(values, w.grid * s, ViewValues(v)[w.start * s..(w.start + w.len) * s])
    && Overwritten(bits, bits', w.grid, Same(true, w.len), w.len)
  }

  /** The cells of the column after one write: the input's rows in place of the old ones. */
  lemma FilledCells(values: seq<byte>, bits: seq<byte>, values': seq<byte>, bits': seq<byte>, s: nat, rows: nat, v: View, w: Write)
    requires ViewValid(v, s) && w.grid + w.len <= rows && w.start + w.len <= Rows(v)
    requires |values| == rows * s && rows <= 8 * |bits| && Filled(values, bits, values', bits', s, v, w)
    ensures |values'| == rows * s && |bits'| == |bits|
    ensures CellsFrom(values', BitsOf(bits', 0, rows), s)
         == Splice(CellsFrom(values, BitsOf(bits, 0, rows), s), w.grid, RawCells(v, s)[w.start..w.start + w.len])
  {
    hide CellsFrom, Splice, Overwritten, ViewValues, Rows, BitsOf, ViewValid;
    ViewSize(v, s);
    OverwrittenSize(bits, bits', w.grid, w.len);
    OverwrittenSplice(bits, bits', w.grid, Same(true, w.len), rows);
    CellsSlice(ViewValues(v), Same(true, Rows(v)), s, w.start, w.start + w.len);
    assert Same(true, Rows(v))[w.start..w.start + w.len] == Same(true, w.len);
    CellsSplice(values, BitsOf(bits, 0, rows), s, w.grid, ViewValues(v)[w.start * s..(w.start + w.len) * s], Same(true, w.len));
  }

  lemma AlignedStep(values: seq<byte>, bits: seq<byte>, values': seq<byte>, bits': seq<byte>, s: nat, rows: nat, v: View,
                    ws: seq<Write>, i: nat)
    requires ViewValid(v, s) && WritesFit(ws, rows, Rows(v)) && i < |ws|
    requires WritesFit(ws[..i], rows, Rows(v)) && Aligned(values, bits, s, rows, RawCells(v, s), ws[..i])
    requires Filled(values, bits, values', bits', s, v, ws[i])
    ensures Aligned(values', bits', s, rows, RawCells(v, s), ws[..i + 1])
  {
    hide Overlaid, CellsFrom, Splice, Filled, ViewValues, Rows, BitsOf, RawCells, ViewValid;
    FilledCells(values, bits, values', bits', s, rows, v, ws[i]);
    OverlaidMore(NoCell(rows), RawCells(v, s), ws, i);
  }

  lemma OverwrittenSize(a: seq<byte>, b: seq<byte>, at: nat, n: nat)
    requires Overwritten(a, b, at, Same(true, n), n)
    ensures |a| == |b|
  {
  }

  /** Carries out one write. */
  method FillOne(values: array<byte>, bits: array<byte>, src: View, s: nat, rows: nat, w: Write)
    requires ViewValid(src, s) && w.grid + w.len <= rows && w.start + w.len <= Rows(src)
    requires values != bits && values.Length == rows * s && rows <= 8 * bits.Length
    modifies values, bits
    ensures Filled(old(values[..]), old(bits[..]), values[..], bits[..], s, src, w)
  {
    hide ViewValues, Rows, Overwritten, Splice, ViewCells, ViewValid;
    SliceFits(src, s, rows, w);
    var slice := SliceRows(src, s, w.start, w.len);
    CopyView(values, w.grid * s, slice.value, s);
    var was := FillBits(bits, w.grid, w.len, true);
  }

  /** A column of `rows` grid rows: NULL everywhere except the rows written, which are marked
      valid as a whole. */
  method BuildAligned(src: View, s: nat, ws: seq<Write>, rows: nat) returns (values: array<byte>, bits: array<byte>)
    requires ViewValid(src, s) && WritesFit(ws, rows, Rows(src))
    ensures fresh(values) && fresh(bits) && values.Length == rows * s && rows <= 8 * bits.Length
    ensures CellsFrom(values[..], BitsOf(bits[..], 0, rows), s) == Overlaid(NoCell(rows), RawCells(src, s), ws)
  {
    hide Aligned, Overlaid, Rows, Filled, CellsFrom, BitsOf, ViewValid, RawCells;
    values := new byte[rows * s](_ => 0);
    bits := new byte[ValiditySize(rows)](_ => 0);
    BitsRoom(bits.Length, rows);
    AlignedStart(values[..], bits[..], s, rows, RawCells(src, s));
    assert ws[..0] == [];
    for i := 0 to |ws|
      invariant fresh(values) && fresh(bits) && values != bits && values.Length == rows * s && bits.Length == ValiditySize(rows)
      invariant WritesFit(ws[..i], rows, Rows(src)) && Aligned(values[..], bits[..], s, rows, RawCells(src, s), ws[..i])
    {
      var w := ws[i];
      assert w.grid + w.len <= rows && w.start + w.len <= Rows(src);
      ghost var v0, b0 := values[..], bits[..];
      FillOne(values, bits, src, s, rows, w);
      AlignedStep(v0, b0, values[..], bits[..], s, rows, src, ws, i);
    }
    assert ws[..|ws|] == ws;
    AlignedCells(values[..], bits[..], s, rows, RawCells(src, s), ws);
  }

  lemma SliceFits(src: View, s: nat, rows: nat, w: Write)
    requires ViewValid(src, s) && w.grid + w.len <= rows && w.start + w.len <= Rows(src)
    ensures w.start * s <= (w.start + w.len) * s <= |ViewValues(src)|
    ensures w.grid * s + |ViewValues(src)[w.start * s..(w.start + w.len) * s]| <= rows * s
  {
    hide Rows, ViewValues;
    ViewSize(src, s);
    MulSum(w.start, w.len, s);
    MulSum(w.start + w.len, Rows(src) - (w.start + w.len), s);
    MulSum(w.grid, w.len, s);
    MulSum(w.grid + w.len, rows - (w.grid + w.len), s);
  }

  lemma AlignedCells(values: seq<byte>, bits: seq<byte>, s: nat, rows: nat, src: seq<CellValue>, ws: seq<Write>)
    requires Aligned(values, bits, s, rows, src, ws) && WritesFit(ws, rows, |src|)
    ensures CellsFrom(values, BitsOf(bits, 0, rows), s) == Overlaid(NoCell(rows), src, ws)
  {
  }

  /** The segments of a view copied one after the other. */
  method CopyView(dst: array<byte>, at: nat, v: View, s: nat)
    requires ViewValid(v, s) && at + |ViewValues(v)| <= dst.Length
    modifies dst
    ensures dst[..] == Splice(old(dst[..]), at, ViewValues(v))
  {
    hide Splice, ViewValues;
    ghost var before := dst[..];
    var pos := at;
    NoValues();
    SpliceNone(before, at);
    assert v[..0] == [];
    for i := 0 to |v|
      invariant pos == at + |ViewValues(v[..i])| && at + |ViewValues(v[..i])| <= dst.Length
      invariant dst[..] == Splice(before, at, ViewValues(v[..i]))
    {
      ValuesPrefix(v, i);
      ValuesMore(v, i);
      SpliceTwice(before, at, ViewValues(v[..i]), v[i].values);
      CopyInto(dst, pos, v[i].values);
      pos := pos + |v[i].values|;
    }
    assert v[..|v|] == v;
  }

  lemma NoValues()
    ensures ViewValues([]) == []
  {
  }

  lemma ValuesMore(v: View, i: nat)
    requires i < |v|
    ensures ViewValues(v[..i + 1]) == ViewValues(v[..i]) + v[i].values
  {
    assert v[..i + 1][..i] == v[..i];
  }

  // ----- what is lost, and what the write that follows puts right

  /** The new column holds the input's cells exactly when no covered input row is NULL. */
  lemma NullsMarkedValid(src: View, s: nat, ws: seq<Write>, rows: nat)
    requires ViewValid(src, s) && WritesFit(ws, rows, Rows(src)) && Increasing(GridRows(ws))
    ensures |GridRows(ws)| == |InputRows(ws)| && forall k :: 0 <= k < |InputRows(ws)| ==> InputRows(ws)[k] < Rows(src)
    ensures Overlaid(NoCell(rows), RawCells(src, s), ws) == Overlaid(NoCell(rows), ViewCells(src, s), ws)
        <==> forall k :: 0 <= k < |InputRows(ws)| ==> ViewCells(src, s)[InputRows(ws)[k]].Some?
  {
    hide Overlaid, GridRows, InputRows, Rows, ViewValues;
    var raw, actual, none := RawCells(src, s), ViewCells(src, s), NoCell(rows);
    OverlaidExact(none, raw, ws);
    OverlaidExact(none, actual, ws);
    forall i | 0 <= i < Rows(src)
      ensures raw[i].Some? && (actual[i].Some? ==> actual[i] == raw[i])
    {
      RawAt(src, s, i);
    }
    var a, b := Overlaid(none, raw, ws), Overlaid(none, actual, ws);
    if forall k :: 0 <= k < |InputRows(ws)| ==> actual[InputRows(ws)[k]].Some? {
      forall g: nat | g < rows
        ensures a[g] == b[g]
      {
        if g in GridRows(ws) { var k :| 0 <= k < |GridRows(ws)| && GridRows(ws)[k] == g; }
      }
      assert a == b;
    }
    if a == b {
      forall k | 0 <= k < |InputRows(ws)|
        ensures actual[InputRows(ws)[k]].Some?
      {
        assert a[GridRows(ws)[k]] == b[GridRows(ws)[k]];
      }
    }
  }

  /** One row, a byte 7 marked NULL: the new column reads 7 there. */
  lemma NullReadsSeven(src: View, ws: seq<Write>)
    requires src == [Segment([7], Some(BitView([0], 0, 1)), 1)] && ws == [Write(0, 0, 1)]
    ensures ViewValid(src, 1) && WritesFit(ws, 1, Rows(src)) && Increasing(GridRows(ws))
    ensures ViewCells(src, 1) == [None]
    ensures Overlaid(NoCell(1), RawCells(src, 1), ws) == [Some([7])] && Overlaid(NoCell(1), ViewCells(src, 1), ws) == [None]
  {
    assert src[..0] == [] && ws[..0] == [];
    assert ViewValues([]) == [] && ViewBits([], 1) == [];
    assert src[0].Bits() == [false];
    assert ViewValues(src) == [7] && ViewBits(src, 1) == [false];
    RawAt(src, 1, 0);
    assert ViewCells(src, 1)[0] == None && RawCells(src, 1)[0] == Some(Cell([7], 1, 0));
    assert Cell([7], 1, 0) == [7];
    assert Overlaid(NoCell(1), RawCells(src, 1), []) == NoCell(1) == Overlaid(NoCell(1), ViewCells(src, 1), []);
  }

  lemma RawAt(src: View, s: nat, i: nat)
    requires ViewValid(src, s) && i < Rows(src)
    ensures RawCells(src, s)[i].Some?
    ensures ViewCells(src, s)[i].Some? ==> ViewCells(src, s)[i] == RawCells(src, s)[i]
  {
    ViewSize(src, s);
    CellFits(s, i, Rows(src));
  }

  /** Writing the same rows afterwards, as a table write does, leaves the input's cells. */
  lemma WriteHeals(rows: nat, raw: seq<CellValue>, src: seq<CellValue>, ws: seq<Write>)
    requires |raw| == |src| && WritesFit(ws, rows, |src|) && Increasing(GridRows(ws))
    ensures Overlaid(Overlaid(NoCell(rows), raw, ws), src, ws) == Overlaid(NoCell(rows), src, ws)
  {
    hide Overlaid, GridRows, InputRows;
    var first := Overlaid(NoCell(rows), raw, ws);
    OverlaidExact(NoCell(rows), raw, ws);
    OverlaidExact(first, src, ws);
    OverlaidExact(NoCell(rows), src, ws);
    var a, b := Overlaid(first, src, ws), Overlaid(NoCell(rows), src, ws);
    forall g: nat | g < rows
      ensures a[g] == b[g]
    {
      if g in GridRows(ws) { var k :| 0 <= k < |GridRows(ws)| && GridRows(ws)[k] == g; }
    }
    assert a == b;
  }
}
