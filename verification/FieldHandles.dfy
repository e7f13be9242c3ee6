/** An open field: positional reads and overwrites on its decompressed content, with the
    NULL count kept incrementally, and re-chunking on close. */
module FieldHandles {
  import opened Bits
  import opened Bitmap
  import opened Chunk
  import opened ChunkStream
  import opened Columns
  import opened FieldFiles
  import opened Formats

  datatype Mode = ReadOnly | Writable

  /** Running totals of chunk lengths. */
  function Ends(lens: seq<nat>): (r: seq<nat>)
    ensures |r| == |lens| && forall i :: 0 <= i < |lens| ==> r[i] == Sum(lens[..i + 1])
  {
    seq(|lens|, i requires 0 <= i < |lens| => Sum(lens[..i + 1]))
  }

  class FieldHandle {
    var header: FieldHeader
    const mode: Mode
    var values: array<byte>
    var bits: array<byte>
    var hasBits: bool
    var lens: seq<nat>
    var ends: seq<nat>
    /** A plain file that still stores only its header. */
    var unexpanded: bool
    const truncated: bool
    const tail: seq<byte>
    var modified: bool
    /** The file as it was opened; the body of a chunked file stays so until the handle is closed. */
    const original: FieldFile

    ghost predicate Valid()
      reads this, values, bits
    {
      && values != bits
      && (!truncated ==>
            && values.Length == header.DataLength()
            && (hasBits ==> bits.Length == ValiditySize(header.rows))
            && header.nullCount == Nulls(Validity())
            && (header.IsChunked() ==> Sum(lens) == header.rows && ends == Ends(lens) && !unexpanded)
            && (!header.IsChunked() ==> hasBits == header.hasValidity)
            && (unexpanded ==> header.rows > 0 && tail == [] && Content() == Blank(header.dt, header.rows)))
      && (truncated ==> !header.IsChunked() && !unexpanded)
      && original.header.IsChunked() == header.IsChunked()
      && (modified ==> mode == Writable)
    }

    ghost function Validity(): (r: seq<bool>)
      reads this, bits
      ensures |r| == header.rows
    {
      if hasBits && bits.Length == ValiditySize(header.rows) then BitsOf(bits[..], 0, header.rows)
      else Same(true, header.rows)
    }

    ghost function Content(): Column
      reads this, values, bits
    {
      Column(values[..], Validity())
    }

    ghost function Cells(): (r: seq<CellValue>)
      requires Valid() && !truncated
      reads this, values, bits
      ensures |r| == header.rows
    {
      Content().Cells(header.dt)
    }

    /** The file behind the handle. Writes to a plain file are in it at once; of a write to a
        chunked one only the header is. */
    ghost function File(): FieldFile
      reads this, values, bits
    {
      if truncated then original
      else if header.IsChunked() then FieldFile(if modified then header else original.header, original.body)
      else FieldFile(header, if unexpanded then [] else values[..] + (if hasBits then bits[..] else []) + tail)
    }

    // ----- reading

    /** A view of rows `[offset, offset + length)`: one segment of a plain field, one
        segment for each chunk touched of a compressed one. */
    method Read(offset: nat, length: nat) returns (r: Result<View>)
      requires Valid()
      ensures r.Ok? <==> offset + length <= header.rows && (length == 0 || !truncated)
      ensures r.Ok? ==> ViewValid(r.value, header.dt.SizeOf()) && Rows(r.value) == length
      ensures r.Ok? && !truncated ==> ViewCells(r.value, header.dt.SizeOf()) == Cells()[offset..offset + length]
    {
      hide CellsFrom, ViewCells, ViewValid, Rows, Ends, Sum, Valid, Cells, AllBits, RawBits;
      if offset + length > header.rows { return Err(Invalid); }
      if length == 0 {
        NoRows(header.dt.SizeOf());
        return Ok([]);
      }
      if truncated { return Err(InvalidState); }
      Shape();
      var raw := if hasBits then Some(bits[..]) else None;
      var v: View;
      if header.IsChunked() {
        v := ChunkRows(values[..], raw, header.dt.SizeOf(), header.rows, lens, ends, offset, offset + length);
      } else {
        v := PlainRows(values[..], raw, header.dt.SizeOf(), header.rows, offset, offset + length);
      }
      return Ok(v);
    }

    /** What an untruncated handle reads from. */
    lemma Shape()
      requires Valid() && !truncated
      ensures values.Length == header.rows * header.dt.SizeOf() && (hasBits ==> header.rows <= 8 * bits.Length)
      ensures header.IsChunked() ==> Sum(lens) == header.rows && ends == Ends(lens)
      ensures var raw := if hasBits then Some(bits[..]) else None;
              Cells() == CellsFrom(values[..], AllBits(RawBits(raw, header.rows), header.rows), header.dt.SizeOf())
    {
      hide CellsFrom, Nulls, Blank, Ends, Sum, BitsOf, Same;
      if hasBits { BitsRoom(bits.Length, header.rows); }
    }

    // ----- writing

    /** When an overwrite is accepted. */
    ghost predicate Accepts(offset: nat, dt: DataType, data: View)
      reads this
      requires ViewValid(data, dt.SizeOf())
    {
      && mode == Writable && dt == header.dt && offset + Rows(data) <= header.rows
      && (Rows(data) > 0 ==>
            header.IsChunked() || ((header.hasValidity || !AnyNull(data, dt.SizeOf())) && !truncated))
    }

    /** Overwrites rows from `offset`. An accepted non-empty write replaces exactly those
        cells, keeps the NULL count exact and raises the generation by one; an empty one
        and a refused one change nothing. */
    method Write(offset: nat, dt: DataType, data: View) returns (r: Result<()>)
      requires Valid() && ViewValid(data, dt.SizeOf())
      modifies this, values, bits
      ensures Valid()
      ensures values == old(values) || fresh(values)
      ensures bits == old(bits) || fresh(bits)
      ensures r.Ok? <==> old(Accepts(offset, dt, data))
      ensures r.Err? || Rows(data) == 0 ==>
                && header == old(header) && Content() == old(Content()) && File() == old(File())
                && modified == old(modified) && lens == old(lens)
      ensures r.Ok? && Rows(data) > 0 ==>
                && header == old(header).(generation := old(header).generation + 1, nullCount := header.nullCount)
                && !truncated && modified && lens == old(lens)
                && Cells() == Splice(old(Cells()), offset, ViewCells(data, dt.SizeOf()))
      ensures r.Ok? && Rows(data) > 0 && header.IsChunked() ==> File() == FieldFile(header, old(File()).body)
      ensures old(Tracks()) ==> Tracks()
    {
      hide Nulls, Splice, ViewCells, CellsFrom, Blank, AnyNull, Sum, Rows, BitsOf, Same, Ends, ValiditySize;
      hide FieldFile.WellFormed, FieldFile.ChunkLens, FieldFile.Content, FieldFile.Laid;
      if mode != Writable { return Err(InvalidState); }
      if dt != header.dt { return Err(Invalid); }
      if offset + Rows(data) > header.rows { return Err(Invalid); }
      if Rows(data) == 0 { return Ok(()); }
      r := Prepare(data);
      if r.Err? { return r; }
      Overwrite(offset, data);
      return Ok(());
    }

    /** The working bitmap, the full file size, and the checks made before anything is written. */
    method Prepare(data: View) returns (r: Result<()>)
      requires Valid() && ViewValid(data, header.dt.SizeOf())
      modifies this`values, this`bits, this`hasBits, this`unexpanded
      ensures Valid() && Content() == old(Content())
      ensures values == old(values) || fresh(values)
      ensures bits == old(bits) || fresh(bits)
      ensures r.Ok? <==> header.IsChunked() || ((header.hasValidity || !AnyNull(data, header.dt.SizeOf())) && !truncated)
      ensures r.Ok? ==> !unexpanded && !truncated && (hasBits || !AnyNull(data, header.dt.SizeOf()))
      ensures r.Err? ==> File() == old(File())
    {
      hide Nulls, AnyNull, Sum, Ends, BitsOf, Same, Blank;
      var s := header.dt.SizeOf();
      if header.IsChunked() {
        var needsBits := CarriesNull(data, s);
        if needsBits && !hasBits { Materialize(); }
      } else {
        if unexpanded { Expand(); }
        if !header.hasValidity {
          var nulls := CarriesNull(data, s);
          if nulls { return Err(Invalid); }
        }
        if truncated { return Err(InvalidState); }
      }
      return Ok(());
    }

    /** A bitmap of all ones for a working copy that had none. */
    method Materialize()
      requires Valid() && header.IsChunked() && !hasBits
      modifies this`bits, this`hasBits
      ensures Valid() && fresh(bits) && hasBits && Content() == old(Content())
    {
      bits := AllOnes(header.rows);
      hasBits := true;
    }

    /** Grows a header-only plain file to its full size, all bytes zero. */
    method Expand()
      requires Valid() && unexpanded && !truncated
      modifies this`values, this`bits, this`unexpanded
      ensures Valid() && fresh(values) && fresh(bits) && !unexpanded && hasBits && Content() == old(Content())
    {
      hide Nulls;
      assert Content().bits[0] == Blank(header.dt, header.rows).bits[0];
      values := new byte[header.DataLength()](_ => 0);
      bits := new byte[ValiditySize(header.rows)](_ => 0);
      unexpanded := false;
      BitsRoom(bits.Length, header.rows);
      ZeroBits(bits[..], header.rows);
    }

    /** The accepted part of a write. */
    method Overwrite(offset: nat, data: View)
      requires Valid() && mode == Writable && !truncated && !unexpanded && ViewValid(data, header.dt.SizeOf())
      requires offset + Rows(data) <= header.rows && (hasBits || !AnyNull(data, header.dt.SizeOf()))
      modifies this`header, this`modified, values, bits
      ensures Valid() && modified
      ensures header == old(header).(generation := old(header).generation + 1, nullCount := header.nullCount)
      ensures Cells() == Splice(old(Cells()), offset, ViewCells(data, header.dt.SizeOf()))
    {
      hide Nulls, Splice, ViewValues, ViewBits, Rows, CellsFrom, Blank, AnyNull, Sum;
      var s, rows := header.dt.SizeOf(), header.rows;
      if hasBits { BitsRoom(bits.Length, rows); }
      ViewSize(data, s);
      CellsSplice(values[..], Validity(), s, offset, ViewValues(data), ViewBits(data, s));
      assert Validity() == BufferBits(bits, hasBits, rows);
      var delta := PutView(values, bits, hasBits, s, rows, offset, data);
      assert Validity() == BufferBits(bits, hasBits, rows);
      if header.IsChunked() || header.hasValidity {
        var count := header.nullCount + delta;
        assert count >= 0;
        header := header.(nullCount := Clip(count));
      }
      header := header.(generation := header.generation + 1);
      modified := true;
    }

    // ----- opening and closing

    constructor (header: FieldHeader, mode: Mode, values: array<byte>, bits: array<byte>, hasBits: bool, lens: seq<nat>,
                 unexpanded: bool, truncated: bool, tail: seq<byte>, original: FieldFile)
      ensures this.header == header && this.mode == mode && this.values == values && this.bits == bits
      ensures this.hasBits == hasBits && this.lens == lens && this.ends == Ends(lens) && this.unexpanded == unexpanded
      ensures this.truncated == truncated && this.tail == tail && this.original == original && !modified
    {
      this.header, this.mode, this.values, this.bits, this.hasBits := header, mode, values, bits, hasBits;
      this.lens, this.ends, this.unexpanded, this.truncated := lens, Ends(lens), unexpanded, truncated;
      this.tail, this.original, this.modified := tail, original, false;
    }

    /** The handle holds its file's column, or (compressed and modified) what closing will store. */
    ghost predicate Tracks()
      reads this, values, bits
    {
      && Valid() && !truncated && original.WellFormed()
      && original.header.(generation := 0, nullCount := 0) == header.(generation := 0, nullCount := 0)
      && (header.IsChunked() && !modified ==> original.header == header && original.Content() == Content())
      && (header.IsChunked() ==> lens == original.ChunkLens())
    }

    /** Writes a modified compressed field back, cut where it was cut when opened. */
    method Close() returns (f: FieldFile)
      requires Valid()
      ensures !(mode == Writable && header.IsChunked() && modified) ==> f == File()
      ensures mode == Writable && header.IsChunked() && modified ==>
                && values.Length == header.DataLength() && Cuttable(values[..], StoredBits(), header.dt, header.rows)
                && f == FieldFile(header, StreamBytes(header.enc, header.Codec(), header.dt,
                                    Split(values[..], StoredBits(), header.dt, header.rows, lens)))
      ensures Tracks() && StoresWhole() ==>
                && f.WellFormed() && f.header == header && f.Content() == Content()
                && (header.IsChunked() ==> f.ChunkLens() == lens)
    {
      hide StreamBytes, Split, Nulls, Blank, Sum, Ends, BitsOf, Stores, Tracks, FieldFile.WellFormed,
           FieldFile.Content, FieldFile.ChunkLens;
      KeepsColumn();
      if mode == ReadOnly || !header.IsChunked() || !modified {
        if header.IsChunked() || truncated { return original; }
        return FieldFile(header, if unexpanded then [] else values[..] + (if hasBits then bits[..] else []) + tail);
      }
      if hasBits { BitsRoom(bits.Length, header.rows); }
      var body := EncodeRows(header.enc, header.Codec(), header.dt, values[..], if hasBits then Some(bits[..]) else None,
                             header.rows, lens);
      return FieldFile(header, body);
    }

    /** The codec can take the present content in the present chunks. */
    ghost predicate StoresWhole()
      requires Valid()
      reads this, values, bits
    {
      !truncated && header.IsChunked() && modified ==> Stores(header, values[..], StoredBits(), lens)
    }

    /** What the handle holds is what closing it leaves behind. */
    lemma KeepsColumn()
      requires Valid()
      ensures Tracks() && !(header.IsChunked() && modified) ==>
                && File().WellFormed() && File().header == header && File().Content() == Content()
                && (header.IsChunked() ==> File().ChunkLens() == lens)
      ensures Tracks() && StoresWhole() && header.IsChunked() && modified ==>
                var f := StreamFile(header, values[..], StoredBits(), lens);
                f.WellFormed() && f.Content() == Content() && f.ChunkLens() == lens
    {
      hide StreamBytes, Split, Nulls, Sum, Ends, Stores, DecodedStream;
      if Tracks() {
        if !header.IsChunked() {
          PlainParts(header, values[..], bits[..], tail);
          assert unexpanded ==> Validity()[0] == Blank(header.dt, header.rows).bits[0];
          assert (values[..] + (if hasBits then bits[..] else []) + tail == []) ==> header.rows == 0;
        } else if modified && StoresWhole() {
          StreamFileExact(header, values[..], StoredBits(), lens);
        }
      }
    }

    ghost function StoredBits(): (r: Option<seq<bool>>)
      reads this, bits
      ensures r.Some? ==> |r.value| == header.rows
    {
      if hasBits && bits.Length == ValiditySize(header.rows) then Some(BitsOf(bits[..], 0, header.rows)) else None
    }
  }

  /** `max(0)`. */
  function Clip(x: int): nat { if x < 0 then 0 else x }

  lemma NoRows(s: nat)
    ensures ViewValid([], s) && Rows([]) == 0 && ViewCells([], s) == []
  {
  }

  /** Rows `[lo, hi)` as a borrowed segment. */
  function RowsSegment(values: seq<byte>, raw: Option<seq<byte>>, s: nat, rows: nat, lo: nat, hi: nat): (g: Segment)
    requires |values| == rows * s && (raw.Some? ==> rows <= 8 * |raw.value|) && lo <= hi <= rows
  {
    MulSum(lo, hi - lo, s);
    MulSum(hi, rows - hi, s);
    Segment(values[lo * s..hi * s], if raw.Some? then Some(BitView(raw.value, lo, hi - lo)) else None, hi - lo)
  }

  lemma RowsSegmentExact(values: seq<byte>, raw: Option<seq<byte>>, s: nat, rows: nat, lo: nat, hi: nat)
    requires |values| == rows * s && (raw.Some? ==> rows <= 8 * |raw.value|) && lo <= hi <= rows
    ensures var g := RowsSegment(values, raw, s, rows, lo, hi);
            && g.Valid(s) && g.rows == hi - lo && lo * s <= hi * s <= |values|
            && g.values == values[lo * s..hi * s]
            && g.Bits() == AllBits(RawBits(raw, rows), rows)[lo..hi]
  {
    MulSum(lo, hi - lo, s);
    MulSum(hi, rows - hi, s);
  }

  method PlainRows(values: seq<byte>, raw: Option<seq<byte>>, s: nat, rows: nat, lo: nat, hi: nat) returns (v: View)
    requires |values| == rows * s && (raw.Some? ==> rows <= 8 * |raw.value|) && lo <= hi <= rows
    ensures ViewValid(v, s) && Rows(v) == hi - lo
    ensures ViewCells(v, s) == CellsFrom(values, AllBits(RawBits(raw, rows), rows), s)[lo..hi]
  {
    hide CellsFrom, AllBits, RawBits, Sliced, Segment.Valid, RowsSegment;
    var g := RowsSegment(values, raw, s, rows, lo, hi);
    ghost var b := AllBits(RawBits(raw, rows), rows);
    RowsSegmentExact(values, raw, s, rows, lo, hi);
    SlicedNone(s, values, b, lo);
    SlicedMore([], s, values, b, lo, lo, hi, g);
    assert [] + [g] == [g];
    SlicedCells([g], s, values, b, lo, hi);
    return [g];
  }

  /** The same rows, one segment for each chunk they touch. */
  method ChunkRows(values: seq<byte>, raw: Option<seq<byte>>, s: nat, rows: nat, lens: seq<nat>, ends: seq<nat>,
                   offset: nat, end: nat) returns (segments: View)
    requires |values| == rows * s && (raw.Some? ==> rows <= 8 * |raw.value|) && offset < end <= rows
    requires Sum(lens) == rows && ends == Ends(lens)
    ensures ViewValid(segments, s) && Rows(segments) == end - offset
    ensures ViewCells(segments, s) == CellsFrom(values, AllBits(RawBits(raw, rows), rows), s)[offset..end]
  {
    hide CellsFrom, AllBits, RawBits, Sliced, Segment.Valid, RowsSegment, Sum;
    ghost var b := AllBits(RawBits(raw, rows), rows);
    SlicedNone(s, values, b, offset);
    EndsIncrease(lens);
    var first := PartitionPoint(ends, offset);
    segments := [];
    ghost var pos := offset;
    ChunkStart(lens, first, offset);
    for ci := first to |lens|
      invariant offset <= pos <= end && Sliced(segments, s, values, b, offset, pos)
      invariant Sum(lens[..ci]) <= offset ==> pos == offset
      invariant Sum(lens[..ci]) > offset ==> pos == (if Sum(lens[..ci]) < end then Sum(lens[..ci]) else end)
    {
      var cend := ends[ci];
      SumStep(lens, ci);
      var cstart := cend - lens[ci];
      if cstart >= end { break; }
      var lo := if offset > cstart then offset else cstart;
      var hi := if end < cend then end else cend;
      var g := RowsSegment(values, raw, s, rows, lo, hi);
      RowsSegmentExact(values, raw, s, rows, lo, hi);
      SlicedMore(segments, s, values, b, offset, lo, hi, g);
      segments := segments + [g];
      pos := hi;
    }
    assert lens[..|lens|] == lens;
    SlicedCells(segments, s, values, b, offset, end);
  }

  lemma {:induction false} EndsIncrease(lens: seq<nat>)
    ensures forall i, j :: 0 <= i <= j < |lens| ==> Ends(lens)[i] <= Ends(lens)[j]
  {
    forall i, j | 0 <= i <= j < |lens|
      ensures Ends(lens)[i] <= Ends(lens)[j]
    {
      SumPrefix(lens[..j + 1], i + 1);
      assert lens[..j + 1][..i + 1] == lens[..i + 1];
    }
  }

  /** The first of sorted `a` above `x`. */
  method PartitionPoint(a: seq<nat>, x: nat) returns (at: nat)
    requires forall i, j :: 0 <= i <= j < |a| ==> a[i] <= a[j]
    ensures at <= |a|
    ensures forall i :: 0 <= i < at ==> a[i] <= x
    ensures forall i :: at <= i < |a| ==> a[i] > x
  {
    var lo, hi := 0, |a|;
    while lo < hi
      invariant 0 <= lo <= hi <= |a|
      invariant forall i :: 0 <= i < lo ==> a[i] <= x
      invariant forall i :: hi <= i < |a| ==> a[i] > x
    {
      var mid := (lo + hi) / 2;
      if a[mid] <= x { lo := mid + 1; } else { hi := mid; }
    }
    return lo;
  }

  /** The chunk found by its end starts at or before the row. */
  lemma ChunkStart(lens: seq<nat>, first: nat, row: nat)
    requires first <= |lens| && forall i :: 0 <= i < first ==> Ends(lens)[i] <= row
    ensures Sum(lens[..first]) <= row
  {
    if first > 0 { assert Ends(lens)[first - 1] == Sum(lens[..first]); }
    else { assert lens[..0] == []; }
  }

  // ----- writing

  lemma NullsSplice(b: seq<bool>, at: nat, x: seq<bool>)
    requires at + |x| <= |b|
    ensures Nulls(Splice(b, at, x)) == Nulls(b) + CountTrue(b[at..at + |x|]) - CountTrue(x)
  {
    hide CountTrue;
    var hi := at + |x|;
    assert b == b[..at] + b[at..hi] + b[hi..];
    CountTrueAppend(b[..at] + b[at..hi], b[hi..]);
    CountTrueAppend(b[..at], b[at..hi]);
    CountTrueAppend(b[..at] + x, b[hi..]);
    CountTrueAppend(b[..at], x);
  }

  lemma SpliceTwice<T>(q: seq<T>, at: nat, x: seq<T>, y: seq<T>)
    requires at + |x| + |y| <= |q|
    ensures Splice(Splice(q, at, x), at + |x|, y) == Splice(q, at, x + y)
  {
  }

  lemma SpliceNone<T>(q: seq<T>, at: nat)
    requires at <= |q|
    ensures Splice(q, at, []) == q
  {
  }

  lemma SpliceSame(n: nat, at: nat, k: nat)
    requires at + k <= n
    ensures Splice(Same(true, n), at, Same(true, k)) == Same(true, n)
  {
  }

  ghost predicate AnyNull(v: View, s: nat)
    requires ViewValid(v, s)
  {
    exists i :: 0 <= i < |v| && SegmentNulls(v, s, i) > 0
  }

  ghost function SegmentNulls(v: View, s: nat, i: nat): nat
    requires ViewValid(v, s) && i < |v|
  {
    assert v[i].Valid(s);
    Nulls(v[i].Bits())
  }

  /** Whether some segment carries a NULL: its set bits are fewer than its rows. */
  method CarriesNull(v: View, s: nat) returns (r: bool)
    requires ViewValid(v, s)
    ensures r <==> AnyNull(v, s)
  {
    hide BitsOf, CountTrue;
    for i := 0 to |v|
      invariant forall k :: 0 <= k < i ==> SegmentNulls(v, s, k) == 0
    {
      assert v[i].Valid(s);
      if v[i].validity.Some? {
        var b := v[i].validity.value;
        var ones := CountOnes(b.data, b.off, b.len);
        if ones < v[i].rows {
          assert SegmentNulls(v, s, i) > 0;
          return true;
        }
      } else {
        CountTrueFull(Same(true, v[i].rows));
      }
      assert SegmentNulls(v, s, i) == 0;
    }
    return false;
  }

  /** The validity a buffer of bits, or its absence, stands for. */
  ghost function BufferBits(bits: array<byte>, hasBits: bool, rows: nat): (r: seq<bool>)
    requires hasBits ==> rows <= 8 * bits.Length
    reads bits
    ensures |r| == rows
  {
    if hasBits then BitsOf(bits[..], 0, rows) else Same(true, rows)
  }

  /** One segment over the rows from `row`; `delta` is the change in the number of NULLs. */
  method PutSegment(values: array<byte>, bits: array<byte>, hasBits: bool, s: nat, rows: nat, row: nat, g: Segment)
    returns (delta: int)
    requires values != bits && values.Length == rows * s && (hasBits ==> rows <= 8 * bits.Length)
    requires g.Valid(s) && row + g.rows <= rows && (hasBits || Nulls(g.Bits()) == 0)
    modifies values, bits
    ensures row * s + |g.values| <= values.Length && values[..] == Splice(old(values[..]), row * s, g.values)
    ensures BufferBits(bits, hasBits, rows) == Splice(old(BufferBits(bits, hasBits, rows)), row, g.Bits())
    ensures delta == Nulls(BufferBits(bits, hasBits, rows)) - Nulls(old(BufferBits(bits, hasBits, rows)))
  {
    hide CountTrue, Overwritten, Splice;
    ghost var b0, raw0 := BufferBits(bits, hasBits, rows), bits[..];
    MulSum(row, g.rows, s);
    MulSum(row + g.rows, rows - (row + g.rows), s);
    CopyInto(values, row * s, g.values);
    delta := 0;
    NullsSplice(b0, row, g.Bits());
    if hasBits {
      BitsOfPart(raw0, rows, row, g.rows);
      if g.validity.Some? {
        var src := g.validity.value;
        var was, now := CopyBits(bits, row, src.data, src.off, g.rows);
        delta := was as int - now as int;
      } else {
        var was := FillBits(bits, row, g.rows, true);
        CountTrueFull(Same(true, g.rows));
        delta := was - g.rows;
      }
      OverwrittenSplice(raw0, bits[..], row, g.Bits(), rows);
    } else {
      NoNulls(g.Bits());
      SpliceSame(rows, row, g.rows);
    }
  }

  /** A whole view, segment by segment. */
  method PutView(values: array<byte>, bits: array<byte>, hasBits: bool, s: nat, rows: nat, offset: nat, data: View)
    returns (delta: int)
    requires values != bits && values.Length == rows * s && (hasBits ==> rows <= 8 * bits.Length)
    requires ViewValid(data, s) && offset + Rows(data) <= rows && (hasBits || !AnyNull(data, s))
    modifies values, bits
    ensures offset * s + |ViewValues(data)| <= values.Length
    ensures values[..] == Splice(old(values[..]), offset * s, ViewValues(data))
    ensures BufferBits(bits, hasBits, rows) == Splice(old(BufferBits(bits, hasBits, rows)), offset, ViewBits(data, s))
    ensures delta == Nulls(BufferBits(bits, hasBits, rows)) - Nulls(old(BufferBits(bits, hasBits, rows)))
  {
    hide Splice, ViewValues, ViewBits, Rows, BufferBits, Nulls, Segment.Bits;
    ghost var v0, b0 := values[..], BufferBits(bits, hasBits, rows);
    delta := 0;
    var row := offset;
    MulSum(offset, rows - offset, s);
    EmptyView(s);
    SpliceNone(v0, offset * s);
    SpliceNone(b0, offset);
    assert data[..0] == [];
    for i := 0 to |data|
      invariant row == offset + Rows(data[..i]) <= rows
      invariant offset * s + |ViewValues(data[..i])| == row * s <= rows * s
      invariant values[..] == Splice(v0, offset * s, ViewValues(data[..i]))
      invariant BufferBits(bits, hasBits, rows) == Splice(b0, offset, ViewBits(data[..i], s))
      invariant delta == Nulls(BufferBits(bits, hasBits, rows)) - Nulls(b0)
    {
      var g := data[i];
      assert g.Valid(s) && SegmentNulls(data, s, i) == Nulls(g.Bits());
      PrefixRows(data, i);
      assert data[..i + 1] == data[..i] + [g];
      ViewMore(data[..i], g, s);
      MulSum(row, g.rows, s);
      MulSum(row + g.rows, rows - (row + g.rows), s);
      SpliceTwice(v0, offset * s, ViewValues(data[..i]), g.values);
      SpliceTwice(b0, offset, ViewBits(data[..i], s), g.Bits());
      var d := PutSegment(values, bits, hasBits, s, rows, row, g);
      delta := delta + d;
      row := row + g.rows;
    }
    assert data[..|data|] == data;
  }

  lemma EmptyView(s: nat)
    ensures ViewValid([], s) && ViewValues([]) == [] && ViewBits([], s) == [] && Rows([]) == 0
  {
  }

  lemma ZeroBits(bits: seq<byte>, rows: nat)
    requires rows <= 8 * |bits| && forall i :: 0 <= i < |bits| ==> bits[i] == 0
    ensures BitsOf(bits, 0, rows) == Same(false, rows)
  {
    forall i: nat | i < rows
      ensures !BitAt(bits, i)
    {
      BitZero(i % 8);
    }
  }

  /** All rows valid, the padding bits of the last byte zero. */
  method AllOnes(rows: nat) returns (bits: array<byte>)
    ensures fresh(bits) && bits.Length == ValiditySize(rows) && rows <= 8 * bits.Length
    ensures BitsOf(bits[..], 0, rows) == Same(true, rows)
  {
    var full: byte := 0xFF;
    bits := new byte[ValiditySize(rows)](_ => full);
    if rows % 8 != 0 { bits[bits.Length - 1] := Mask8(rows % 8); }
    FullByte(full, true);
    PlainMask(rows % 8);
    forall i: nat | i < rows
      ensures BitAt(bits[..], i)
    {
      assert i / 8 < bits.Length - 1 || (i / 8 == bits.Length - 1 && (rows % 8 != 0 ==> i % 8 < rows % 8));
    }
  }

  // ----- opening

  method Loaded(b: seq<byte>) returns (a: array<byte>)
    ensures fresh(a) && a[..] == b
  {
    a := new byte[|b|](i requires 0 <= i < |b| => b[i]);
  }

  /** Opens a file. Only a chunk stream that does not decode to the header's rows is
      refused; a plain file too short for its header opens, and refuses its rows later. */
  method Open(f: FieldFile, mode: Mode) returns (r: Result<FieldHandle>)
    ensures r.Ok? <==> f.HeaderOnly() || !f.header.IsChunked() || f.StreamReadable()
    ensures r.Ok? ==> fresh(r.value) && fresh(r.value.values) && fresh(r.value.bits)
    ensures r.Ok? ==> r.value.mode == mode && !r.value.modified && r.value.truncated == f.Truncated()
    ensures r.Ok? && f.Truncated() ==> r.value.Valid() && r.value.File() == f
    ensures r.Ok? && f.WellFormed() ==>
              && r.value.Tracks() && r.value.header == f.header && r.value.original == f
              && r.value.Content() == f.Content() && r.value.File() == f
    ensures r.Ok? && f.header.IsChunked() && !f.HeaderOnly() ==>
              r.value.Valid() && r.value.Content() == f.Content()
  {
    if f.HeaderOnly() {
      var h := OpenHeaderOnly(f, mode);
      return Ok(h);
    }
    if f.header.IsChunked() {
      r := OpenChunked(f, mode);
      return;
    }
    var h := OpenPlain(f, mode);
    return Ok(h);
  }

  method OpenHeaderOnly(f: FieldFile, mode: Mode) returns (h: FieldHandle)
    requires f.HeaderOnly()
    ensures fresh(h) && fresh(h.values) && fresh(h.bits)
    ensures h.mode == mode && !h.modified && !h.truncated && h.original == f
    ensures f.WellFormed() ==> h.Tracks() && h.header == f.header && h.Content() == f.Content() && h.File() == f
  {
    hide Nulls, Sum;
    var head := f.header;
    var values := new byte[head.DataLength()](_ => 0);
    var bits := new byte[ValiditySize(head.rows)](_ => 0);
    BitsRoom(bits.Length, head.rows);
    ZeroBits(bits[..], head.rows);
    var lens := if head.IsChunked() then EvenLens(head.rows) else [];
    EvenSum(head.rows);
    h := new FieldHandle(head, mode, values, bits, true, lens, !head.IsChunked(), false, [], f);
    assert h.Content() == Blank(head.dt, head.rows);
  }

  method OpenChunked(f: FieldFile, mode: Mode) returns (r: Result<FieldHandle>)
    requires !f.HeaderOnly() && f.header.IsChunked()
    ensures r.Ok? <==> f.StreamReadable()
    ensures r.Ok? ==> fresh(r.value) && fresh(r.value.values) && fresh(r.value.bits)
    ensures r.Ok? ==> r.value.mode == mode && !r.value.modified && !r.value.truncated && r.value.original == f
    ensures r.Ok? ==> r.value.Valid() && r.value.Content() == f.Content() && r.value.File() == f
    ensures r.Ok? && f.WellFormed() ==> r.value.Tracks() && r.value.header == f.header
  {
    hide CountTrue, Sum, DecodedStream, JoinValues, JoinBits, Blank;
    var head := f.header;
    var ok, values, bits, lens := DecodeRows(head.enc, head.Codec(), head.dt, head.rows, f.body);
    if !ok { return Err(InvalidState); }
    var hasBits := ValiditySize(head.rows) > 0;
    var ones := CountOnes(bits[..], 0, head.rows);
    if !hasBits { NoNulls(Same(true, head.rows)); }
    head := head.(nullCount := if hasBits then head.rows - ones else 0);
    var h := new FieldHandle(head, mode, values, bits, hasBits, lens, false, false, [], f);
    assert h.Validity() == f.Content().bits;
    return Ok(h);
  }

  method OpenPlain(f: FieldFile, mode: Mode) returns (h: FieldHandle)
    requires !f.HeaderOnly() && !f.header.IsChunked()
    ensures fresh(h) && fresh(h.values) && fresh(h.bits)
    ensures h.mode == mode && !h.modified && h.truncated == f.Truncated() && h.original == f && h.header == f.header
    ensures f.Truncated() ==> h.Valid() && h.File() == f
    ensures f.WellFormed() ==> h.Tracks() && h.Content() == f.Content() && h.File() == f
  {
    hide Nulls, Sum, BitsOf, Blank;
    var d, v := f.header.DataLength(), f.header.ValidityLength();
    var values, bits, tail, short;
    if |f.body| < d + v {
      values := Loaded([]);
      bits := Loaded([]);
      tail, short := [], true;
    } else {
      values := Loaded(f.body[..d]);
      bits := Loaded(f.body[d..d + v]);
      tail, short := f.body[d + v..], false;
      assert f.body == f.body[..d] + f.body[d..d + v] + tail;
      PlainParts(f.header, f.body[..d], f.body[d..d + v], tail);
    }
    h := new FieldHandle(f.header, mode, values, bits, f.header.hasValidity, [], false, short, tail, f);
    if !short {
      assert f.header.hasValidity || f.body[d..d + v] == [];
      assert h.File().body == f.body;
      assert h.Content() == PlainColumn(f.header, f.body);
    }
  }

  // ----- whole runs

  datatype Op = ReadOp(offset: nat, length: nat) | WriteOp(offset: nat, dt: DataType, data: View) | Reopen(mode: Mode)

  datatype Answer = Done | Refused | Rows_(cells: seq<CellValue>)

  /** One nullable column: what a field is, in whatever form it is stored. */
  datatype Abstract = Abstract(dt: DataType, nullable: bool, mode: Mode, cells: seq<CellValue>, generation: nat) {
    ghost predicate Takes(op: Op)
      requires op.WriteOp? && ViewValid(op.data, op.dt.SizeOf())
    {
      && mode == Writable && op.dt == dt && op.offset + Rows(op.data) <= |cells|
      && (Rows(op.data) > 0 ==> nullable || !AnyNull(op.data, dt.SizeOf()))
    }

    ghost function Step(op: Op): (r: (Abstract, Answer))
      requires op.WriteOp? ==> ViewValid(op.data, op.dt.SizeOf())
    {
      match op
      case ReadOp(offset, length) =>
        (this, if offset + length <= |cells| then Rows_(cells[offset..offset + length]) else Refused)
      case Reopen(m) => (this.(mode := m), Done)
      case WriteOp(offset, _, data) =>
        if !Takes(op) then (this, Refused)
        else if Rows(data) == 0 then (this, Done)
        else (this.(cells := Splice(cells, offset, ViewCells(data, dt.SizeOf())), generation := generation + 1), Done)
    }

    ghost function Run(ops: seq<Op>): (r: (Abstract, seq<Answer>))
      requires OpsValid(ops)
    {
      if ops == [] then (this, []) else
        var (before, answers) := Run(ops[..|ops| - 1]);
        var (after, answer) := before.Step(ops[|ops| - 1]);
        (after, answers + [answer])
    }
  }

  ghost predicate OpsValid(ops: seq<Op>) {
    forall i :: 0 <= i < |ops| && ops[i].WriteOp? ==> ViewValid(ops[i].data, ops[i].dt.SizeOf())
  }

  ghost function AbstractOf(f: FieldFile, mode: Mode): Abstract
    requires f.WellFormed()
  {
    Abstract(f.header.dt, f.header.IsChunked() || f.header.hasValidity, mode, f.Cells(), f.header.generation)
  }

  /** The codec can store any column of this shape in these chunks. */
  ghost predicate Roomy(h: FieldHeader, lens: seq<nat>)
    requires Sum(lens) == h.rows
  {
    forall v, b :: Cuttable(v, b, h.dt, h.rows) ==> Stores(h, v, b, lens)
  }

  /** The column a handle stands for. */
  ghost function StateOf(h: FieldHandle): Abstract
    requires h.Tracks()
    reads h, h.values, h.bits
  {
    Abstract(h.header.dt, h.header.IsChunked() || h.header.hasValidity, h.mode, h.Cells(), h.header.generation)
  }

  ghost predicate Ready(h: FieldHandle)
    reads h, h.values, h.bits
  {
    h.Tracks() && (h.header.IsChunked() ==> Roomy(h.header, h.lens))
  }

  lemma RoomySame(a: FieldHeader, b: FieldHeader, lens: seq<nat>)
    requires Sum(lens) == a.rows && Roomy(a, lens)
    requires a.(generation := 0, nullCount := 0) == b.(generation := 0, nullCount := 0)
    ensures Roomy(b, lens)
  {
    hide Lossless, Storable, Split, Sum, Cuttable;
    forall v, bits | Cuttable(v, bits, b.dt, b.rows)
      ensures Stores(b, v, bits, lens)
    {
      assert Cuttable(v, bits, a.dt, a.rows);
      assert Stores(a, v, bits, lens);
    }
  }

  /** Closes a handle and opens what it left. */
  method CloseAndOpen(h: FieldHandle, mode: Mode) returns (next: FieldHandle)
    requires Ready(h)
    ensures fresh(next) && fresh(next.values) && fresh(next.bits) && Ready(next)
    ensures StateOf(next) == StateOf(h).(mode := mode) && next.header.IsChunked() == h.header.IsChunked()
  {
    hide Nulls, Blank, Ends, Sum, Roomy, Column.Cells, CellsFrom, Stores;
    RoomyStores(h);
    var f := h.Close();
    var r := Open(f, mode);
    return r.value;
  }

  lemma RoomyStores(h: FieldHandle)
    requires Ready(h)
    ensures h.StoresWhole()
  {
    hide Stores;
    if h.header.IsChunked() { assert Cuttable(h.values[..], h.StoredBits(), h.header.dt, h.header.rows); }
  }

  /** One operation on a handle. */
  method Perform(h: FieldHandle, op: Op) returns (next: FieldHandle, answer: Answer)
    requires Ready(h) && (op.WriteOp? ==> ViewValid(op.data, op.dt.SizeOf()))
    modifies h, h.values, h.bits
    ensures Ready(next)
    ensures next == h || fresh(next)
    ensures next.values == old(h.values) || fresh(next.values)
    ensures next.bits == old(h.bits) || fresh(next.bits)
    ensures (StateOf(next), answer) == old(StateOf(h)).Step(op)
    ensures next.header.IsChunked() == old(h.header.IsChunked())
  {
    hide Nulls, Blank, Ends, Sum, Roomy, Column.Cells, CellsFrom, Stores, ViewCells, Splice, Rows, AnyNull;
    match op {
      case ReadOp(offset, length) =>
        var v := h.Read(offset, length);
        return h, if v.Ok? then Rows_(ViewCells(v.value, h.header.dt.SizeOf())) else Refused;
      case WriteOp(offset, dt, data) =>
        ghost var was := h.header;
        var r := h.Write(offset, dt, data);
        if was.IsChunked() { RoomySame(was, h.header, h.lens); }
        return h, if r.Ok? then Done else Refused;
      case Reopen(mode) =>
        next := CloseAndOpen(h, mode);
        return next, Done;
    }
  }

  lemma RunMore(a: Abstract, ops: seq<Op>, i: nat)
    requires OpsValid(ops) && i < |ops|
    ensures OpsValid(ops[..i]) && OpsValid(ops[..i + 1])
    ensures var (before, answers) := a.Run(ops[..i]);
            a.Run(ops[..i + 1]) == (before.Step(ops[i]).0, answers + [before.Step(ops[i]).1])
  {
    assert ops[..i + 1][..i] == ops[..i];
  }

  /** Any sequence of reads, writes, closes and reopens, from any stored form, answers as
      one nullable column would and leaves it behind, NULL count and generation included. */
  method RunOps(f: FieldFile, mode: Mode, ops: seq<Op>) returns (out: FieldFile, answers: seq<Answer>)
    requires f.WellFormed() && OpsValid(ops)
    requires f.header.IsChunked() ==> Roomy(f.header, f.ChunkLens())
    ensures answers == AbstractOf(f, mode).Run(ops).1
    ensures out.WellFormed()
    ensures AbstractOf(out, AbstractOf(f, mode).Run(ops).0.mode) == AbstractOf(f, mode).Run(ops).0
    ensures out.header.IsChunked() == f.header.IsChunked()
  {
    hide Nulls, Blank, Ends, Sum, Roomy, Column.Cells, CellsFrom, Stores, Abstract.Run, Abstract.Step;
    var first := Open(f, mode);
    var h := first.value;
    answers := [];
    ghost var start := AbstractOf(f, mode);
    RunNone(start);
    assert ops[..0] == [];
    for i := 0 to |ops|
      invariant fresh(h) && fresh(h.values) && fresh(h.bits)
      invariant Ready(h) && OpsValid(ops[..i])
      invariant (StateOf(h), answers) == start.Run(ops[..i])
      invariant h.header.IsChunked() == f.header.IsChunked()
    {
      RunMore(start, ops, i);
      var next, answer := Perform(h, ops[i]);
      h := next;
      answers := answers + [answer];
    }
    assert ops[..|ops|] == ops;
    RoomyStores(h);
    out := h.Close();
  }

  lemma RunNone(a: Abstract)
    ensures a.Run([]) == (a, [])
  {
  }
}
