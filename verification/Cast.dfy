/** Casting a field to another type: values converted batch by batch, validity bits
    re-joined across segments and batches, the storage form kept. */
module Cast {
  import opened Bits
  import opened Bitmap
  import opened Cells
  import opened Chunk
  import opened ChunkBounds
  import opened ChunkStream
  import opened Columns
  import opened FieldConvert
  import opened FieldFiles
  import opened FieldHandles
  import opened Formats
  import opened Order
  import opened Stitch

  const CAST_BATCH_ROWS := 0x4_0000

  /** One value's conversion; its arithmetic is not part of the model. */
  type Conversion = seq<byte> -> seq<byte>

  ghost predicate Converts(conv: Conversion, s: nat, ds: nat) {
    forall b :: |b| == s ==> |conv(b)| == ds
  }

  function CastCell(conv: Conversion, c: CellValue): CellValue {
    if c.Some? then Some(conv(c.value)) else None
  }

  function CastCells(conv: Conversion, cs: seq<CellValue>): (r: seq<CellValue>)
    ensures |r| == |cs|
  {
    seq(|cs|, i requires 0 <= i < |cs| => CastCell(conv, cs[i]))
  }

  lemma CastJoin(conv: Conversion, a: seq<CellValue>, b: seq<CellValue>)
    ensures CastCells(conv, a + b) == CastCells(conv, a) + CastCells(conv, b)
  {
  }

  lemma OneCell(v: seq<byte>, b: bool, s: nat)
    requires |v| == s
    ensures |v| == |[b]| * s && CellsFrom(v, [b], s) == [if b then Some(v) else None]
  {
    assert v[0 * s..0 * s + s] == v;
  }

  /** Converts the values of one segment. */
  method ConvertSegment(conv: Conversion, values: seq<byte>, s: nat, ds: nat, n: nat, ghost bits: seq<bool>) returns (out: seq<byte>)
    requires Converts(conv, s, ds) && |values| == n * s && |bits| == n
    ensures |out| == n * ds
    ensures CellsFrom(out, bits, ds) == CastCells(conv, CellsFrom(values, bits, s))
  {
    hide CellsFrom, Converts;
    ghost var all := CellsFrom(values, bits, s);
    out := [];
    NoCells(ds);
    for i := 0 to n
      invariant |out| == i * ds
      invariant CellsFrom(out, bits[..i], ds) == CastCells(conv, all[..i])
    {
      CellFits(s, i, n);
      MulSum(i, 1, ds);
      var c := Cell(values, s, i);
      ConvertsOne(conv, s, ds, c);
      CellAt(values, bits, s, i);
      OneCell(conv(c), bits[i], ds);
      CellsJoin(out, bits[..i], conv(c), [bits[i]], ds);
      assert bits[..i] + [bits[i]] == bits[..i + 1] && all[..i] + [all[i]] == all[..i + 1];
      CastJoin(conv, all[..i], [all[i]]);
      out := out + conv(c);
    }
    assert bits[..n] == bits && all[..n] == all;
  }

  lemma NoCells(s: nat)
    ensures CellsFrom([], [], s) == []
  {
  }

  lemma ConvertsOne(conv: Conversion, s: nat, ds: nat, b: seq<byte>)
    requires Converts(conv, s, ds) && |b| == s
    ensures |conv(b)| == ds
  {
  }

  lemma CellAt(values: seq<byte>, bits: seq<bool>, s: nat, i: nat)
    requires |values| == |bits| * s && i < |bits|
    ensures (i + 1) * s <= |values|
    ensures CellsFrom(values, bits, s)[i] == if bits[i] then Some(Cell(values, s, i)) else None
  {
    CellFits(s, i, |bits|);
  }

  lemma ViewCellsMore(v: View, s: nat, j: nat)
    requires ViewValid(v, s) && j < |v|
    ensures ViewValid(v[..j], s) && ViewValid(v[..j + 1], s) && v[j].Valid(s)
    ensures ViewCells(v[..j + 1], s) == ViewCells(v[..j], s) + CellsFrom(v[j].values, v[j].Bits(), s)
  {
    hide CellsFrom, ViewBits, ViewValues, Segment.Bits;
    assert v[j].Valid(s);
    assert v[..j + 1] == v[..j] + [v[j]];
    ViewMore(v[..j], v[j], s);
    ViewSize(v[..j], s);
    CellsJoin(ViewValues(v[..j]), ViewBits(v[..j], s), v[j].values, v[j].Bits(), s);
  }

  /** What has been read and converted so far. */
  ghost predicate CastSoFar(conv: Conversion, ds: nat, done: seq<CellValue>, values: seq<byte>, stream: seq<byte>,
                            acc: nat, accBits: nat, bits: seq<bool>)
  {
    && |values| == |bits| * ds
    && CellsFrom(values, bits, ds) == CastCells(conv, done)
    && Stitched(stream, acc, accBits, bits)
  }

  /** One view: values converted segment by segment, bits joined onto what is carried. */
  method CastView(conv: Conversion, v: View, s: nat, ds: nat, ghost done: seq<CellValue>, values: seq<byte>,
                  stream: seq<byte>, acc: nat, accBits: nat, ghost bits: seq<bool>)
    returns (values': seq<byte>, stream': seq<byte>, acc': nat, accBits': nat, ghost bits': seq<bool>)
    requires Converts(conv, s, ds) && ViewValid(v, s) && CastSoFar(conv, ds, done, values, stream, acc, accBits, bits)
    ensures CastSoFar(conv, ds, done + ViewCells(v, s), values', stream', acc', accBits', bits')
  {
    hide CellsFrom, Converts, Stitched, ViewCells, CastCells, Segment.Bits;
    values', stream', acc', accBits', bits' := values, stream, acc, accBits, bits;
    assert v[..0] == [];
    NoRows(s);
    assert done + [] == done;
    for j := 0 to |v|
      invariant CastSoFar(conv, ds, done + ViewCells(v[..j], s), values', stream', acc', accBits', bits')
    {
      ViewCellsMore(v, s, j);
      var g := v[j];
      var out := ConvertSegment(conv, g.values, s, ds, g.rows, g.Bits());
      var packed := None;
      if g.validity.Some? {
        var p := PackedBytes(g.validity.value.data, g.validity.value.off, g.rows);
        packed := Some(p);
      }
      SegmentBits(g, s, packed);
      stream', acc', accBits' := StitchChunk(packed, g.rows, stream', acc', accBits', bits');
      CellsJoin(values', bits', out, g.Bits(), ds);
      CastJoin(conv, done + ViewCells(v[..j], s), CellsFrom(g.values, g.Bits(), s));
      assert done + ViewCells(v[..j], s) + CellsFrom(g.values, g.Bits(), s) == done + ViewCells(v[..j + 1], s);
      values', bits' := values' + out, bits' + g.Bits();
    }
    assert v[..|v|] == v;
  }

  lemma SegmentBits(g: Segment, s: nat, packed: Option<seq<byte>>)
    requires g.Valid(s)
    requires packed == if g.validity.Some? then Some(Pack(BitsOf(g.validity.value.data, g.validity.value.off, g.rows))) else None
    ensures packed.Some? ==> g.rows <= 8 * |packed.value|
    ensures g.Bits() == if packed.Some? then BitsOf(packed.value, 0, g.rows) else Same(true, g.rows)
  {
    if packed.Some? { PackedBits(BitsOf(g.validity.value.data, g.validity.value.off, g.rows)); }
  }

  /** The whole field, batch by batch. */
  method CastBatches(h: FieldHandle, conv: Conversion, ds: nat)
    returns (values: seq<byte>, stream: seq<byte>, acc: nat, accBits: nat, ghost bits: seq<bool>)
    requires h.Valid() && !h.truncated && Converts(conv, h.header.dt.SizeOf(), ds)
    ensures CastSoFar(conv, ds, h.Cells(), values, stream, acc, accBits, bits)
  {
    hide CellsFrom, Converts, CastSoFar, ViewCells, CastCells, FieldHandle.Cells;
    values, stream, acc, accBits, bits := [], [], 0, 0, [];
    var offset, total := 0, h.header.rows;
    ghost var cells := h.Cells();
    CastNone(conv, ds);
    while offset < total
      invariant 0 <= offset <= total
      invariant CastSoFar(conv, ds, cells[..offset], values, stream, acc, accBits, bits)
    {
      var n := Min(CAST_BATCH_ROWS, total - offset);
      var view := h.Read(offset, n);
      values, stream, acc, accBits, bits :=
        CastView(conv, view.value, h.header.dt.SizeOf(), ds, cells[..offset], values, stream, acc, accBits, bits);
      assert cells[..offset] + cells[offset..offset + n] == cells[..offset + n];
      offset := offset + n;
    }
    assert cells[..total] == cells;
  }

  lemma CastNone(conv: Conversion, ds: nat)
    ensures CastSoFar(conv, ds, [], [], [], 0, 0, [])
  {
    StitchedNone();
  }

  const DRAIN := 0x1_0000

  /** The joined bits in pieces of 64 KB and a last partial byte; counts them on the way. */
  method DrainValidity(stream: seq<byte>, acc: nat, accBits: nat, ghost bits: seq<bool>, rows: nat)
    returns (out: seq<byte>, ones: nat)
    requires Stitched(stream, acc, accBits, bits) && |bits| == rows
    ensures out == Pack(bits) && ones == CountTrue(bits)
  {
    hide Pack, CountTrue, BitsOf, OnesIn, Stitched;
    StitchedEnd(stream, acc, accBits, bits);
    ghost var all := Pack(bits);
    out, ones := [], 0;
    PackedBits(bits);
    NoOnes(all);
    while |out| < ValiditySize(rows)
      invariant |out| <= |all| && out == all[..|out|]
      invariant |out| <= |stream| || |out| == |all|
      invariant ones == OnesIn(all, 0, Min(8 * |out|, rows))
      decreases |all| - |out|
    {
      var piece: seq<byte>;
      if |out| < |stream| {
        piece := stream[|out|..Min(|out| + DRAIN, |stream|)];
      } else {
        piece := [acc as byte];
      }
      var before := Min(8 * |out|, rows);
      var take := Min(8 * |piece|, rows - before);
      var k := CountOnes(piece, 0, take);
      assert piece == all[|out|..|out| + |piece|];
      PieceOnes(all, |out|, |piece|, take);
      OnesSplit(all, before, take);
      ones := ones + k;
      out := out + piece;
    }
    OnesOfAll(bits);
  }

  lemma NoOnes(s: seq<byte>)
    ensures OnesIn(s, 0, 0) == 0
  {
  }

  lemma OnesOfAll(bits: seq<bool>)
    ensures |Pack(bits)| == ValiditySize(|bits|) && OnesIn(Pack(bits), 0, |bits|) == CountTrue(bits)
  {
    PackedBits(bits);
  }

  lemma PieceOnes(all: seq<byte>, at: nat, n: nat, take: nat)
    requires at + n <= |all| && take <= 8 * n
    ensures OnesIn(all[at..at + n], 0, take) == OnesIn(all, 8 * at, take)
  {
    var a, b := BitsOf(all[at..at + n], 0, take), BitsOf(all, 8 * at, take);
    forall i: nat | i < take
      ensures a[i] == b[i]
    {
      assert (8 * at + i) / 8 == at + i / 8 && (8 * at + i) % 8 == i % 8;
    }
    assert a == b;
  }

  lemma OnesSplit(all: seq<byte>, a: nat, b: nat)
    requires a + b <= 8 * |all|
    ensures OnesIn(all, 0, a + b) == OnesIn(all, 0, a) + OnesIn(all, a, b)
  {
    BitsOfSplit(all, 0, a, b);
  }

  // ----- the whole cast

  lemma {:induction false} SortedAlready(s: seq<nat>)
    requires Increasing(s)
    ensures SortDistinct(s) == s
  {
    SortDistinctSorts(s);
    IncreasingUnique(SortDistinct(s), s);
  }

  lemma StartsIncrease(lens: seq<nat>)
    requires forall i :: 0 <= i < |lens| ==> lens[i] > 0
    ensures Increasing(Starts(lens)) && (forall i :: 0 <= i < |lens| ==> Starts(lens)[i] < Sum(lens))
    ensures lens != [] ==> Starts(lens)[0] == 0
  {
    hide Sum;
    forall i, j | 0 <= i < j <= |lens|
      ensures Sum(lens[..i]) < Sum(lens[..j])
    {
      SumStep(lens, i);
      SumPrefix(lens[..j], i + 1);
      assert lens[..j][..i + 1] == lens[..i + 1];
    }
    assert lens[..|lens|] == lens;
    if lens != [] {
      assert lens[..0] == [];
      SumNone();
    }
  }

  /** A chunk-cut list given as its own starts cuts the same way. */
  lemma OwnStarts(lens: seq<nat>, rows: nat)
    requires (forall i :: 0 <= i < |lens| ==> lens[i] > 0) && Sum(lens) == rows && rows > 0
    ensures OffsetsValid(rows, Some(Starts(lens))) && SortDistinct(Starts(lens)) == Starts(lens)
  {
    SumNone();
    StartsIncrease(lens);
    SortedAlready(Starts(lens));
  }

  /** The streamed plain file: converted values, then the joined validity. */
  method CastStream(f: FieldFile, target: DataType, conv: Conversion) returns (tmp: FieldFile)
    requires f.WellFormed() && f.body != [] && Converts(conv, f.header.dt.SizeOf(), target.SizeOf())
    ensures tmp.header == PlainHeader(target, f.header.generation, f.header.rows, f.header.nullCount, true)
    ensures tmp.WellFormed() && tmp.Cells() == CastCells(conv, f.Cells()) && tmp.Content().bits == f.Content().bits
  {
    hide CellsFrom, Converts, Pack, CountTrue, Stitched, CastCells, FieldFile.Content, StreamFile;
    var h := Open(f, ReadOnly);
    var values, stream, acc, accBits;
    ghost var bits;
    values, stream, acc, accBits, bits := CastBatches(h.value, conv, target.SizeOf());
    var packed, ones := DrainValidity(stream, acc, accBits, bits, f.header.rows);
    SameValidity(conv, f, target, values, bits);
    PackedBits(bits);
    var head := PlainHeader(target, f.header.generation, f.header.rows, f.header.rows - ones, true);
    PlainParts(head, values, packed, []);
    assert values + packed + [] == values + packed;
    tmp := FieldFile(head, values + packed);
    CastFileCells(tmp, values, bits);
  }

  lemma CastFileCells(tmp: FieldFile, values: seq<byte>, bits: seq<bool>)
    requires tmp.header.enc.Plain? && tmp.header.comp.Uncompressed? && tmp.header.hasValidity
    requires |values| == tmp.header.DataLength() && |bits| == tmp.header.rows
    requires |tmp.body| >= tmp.header.DataLength() + tmp.header.ValidityLength()
    requires PlainColumn(tmp.header, tmp.body) == Column(values, bits) && tmp.header.nullCount == Nulls(bits)
    ensures tmp.WellFormed() && tmp.Content() == Column(values, bits)
    ensures tmp.Cells() == CellsFrom(values, bits, tmp.header.dt.SizeOf())
  {
    hide Nulls, CellsFrom;
    assert tmp.header.rows > 0 ==> tmp.header.DataLength() > 0;
  }

  /** The joined bits are the field's own. */
  lemma SameValidity(conv: Conversion, f: FieldFile, target: DataType, values: seq<byte>, bits: seq<bool>)
    requires f.WellFormed() && |values| == |bits| * target.SizeOf()
    requires CellsFrom(values, bits, target.SizeOf()) == CastCells(conv, f.Cells())
    ensures bits == f.Content().bits && Nulls(bits) == f.header.nullCount
  {
    hide FieldFile.Content, Nulls;
    var a, b := CellsFrom(values, bits, target.SizeOf()), f.Cells();
    assert |a| == |b|;
    forall i | 0 <= i < |bits|
      ensures bits[i] == f.Content().bits[i]
    {
      CellAt(values, bits, target.SizeOf(), i);
      CellAt(f.Content().values, f.Content().bits, f.header.dt.SizeOf(), i);
      assert a[i] == CastCell(conv, b[i]);
    }
  }

  /** Header of the re-compressed result. */
  function CastHeader(h: FieldHeader, target: DataType): FieldHeader {
    h.(dt := target, hasValidity := false)
  }

  lemma CastEmpty(f: FieldFile, target: DataType, conv: Conversion)
    requires f.WellFormed() && f.body == []
    ensures var g := FieldFile(FieldHeader(target, f.header.enc, f.header.comp, f.header.generation, f.header.rows, f.header.rows, true), []);
            && g.WellFormed() && g.Cells() == CastCells(conv, f.Cells())
            && f.header.nullCount == f.header.rows
            && (f.header.IsChunked() && f.header.rows == 0 ==> g.ChunkLens() == f.ChunkLens())
  {
    hide Nulls, CellsFrom;
    var h := f.header;
    var g := FieldFile(FieldHeader(target, h.enc, h.comp, h.generation, h.rows, h.rows, true), []);
    BlankCells(h.dt, h.rows);
    BlankCells(target, h.rows);
    EvenSum(h.rows);
    if h.rows > 0 {
      assert g.HeaderOnly() && f.HeaderOnly();
    } else {
      StreamNone(h.enc, h.Codec(), h.dt);
      StreamNone(h.enc, h.Codec(), target);
      SumNone();
      JoinNone(h.dt);
      JoinNone(target);
      NoNulls([]);
      assert g.Cells() == [] && f.Cells() == [];
    }
  }

  lemma CastShape(tmp: FieldFile)
    requires tmp.WellFormed() && !tmp.header.IsChunked() && tmp.header.rows > 0
    ensures tmp.body == [] || |tmp.body| >= tmp.header.DataLength() + tmp.header.ValidityLength()
    ensures tmp.body == [] ==> tmp.header.IsAllNull()
    ensures tmp.body != [] ==> !tmp.Truncated()
  {
    PlainNotEmpty(tmp);
  }

  lemma RoomyCut(h: FieldHeader, tmp: FieldFile, lens: seq<nat>)
    requires Sum(lens) == h.rows && Roomy(h, lens) && h.rows == tmp.header.rows && h.dt == tmp.header.dt
    requires |tmp.body| >= tmp.header.DataLength() + tmp.header.ValidityLength()
    ensures Stores(h, tmp.body[..tmp.header.DataLength()], PlainBits(tmp), lens)
  {
    hide Stores, Sum;
    assert Cuttable(tmp.body[..tmp.header.DataLength()], PlainBits(tmp), h.dt, h.rows);
  }

  /** Casts a field in place: every non-NULL value is converted, NULL rows stay NULL, and
      NULL count, generation, storage form and chunk grouping are kept. */
  method Cast(f: FieldFile, target: DataType, conv: Conversion) returns (out: FieldFile)
    requires f.WellFormed() && Converts(conv, f.header.dt.SizeOf(), target.SizeOf())
    requires f.header.IsChunked() && !f.HeaderOnly() ==> Roomy(CastHeader(f.header, target), f.ChunkLens())
    ensures f.header.dt == target ==> out == f
    ensures out.WellFormed() && out.header.dt == target && out.header.rows == f.header.rows
    ensures f.header.dt != target ==> out.Cells() == CastCells(conv, f.Cells())
    ensures out.header.nullCount == f.header.nullCount && out.header.generation == f.header.generation
    ensures out.header.enc == f.header.enc && out.header.comp == f.header.comp
    ensures f.header.IsChunked() && !f.header.IsAllNull() ==> out.ChunkLens() == f.ChunkLens()
  {
    hide CellsFrom, Converts, CastCells, FieldFile.Content, FieldFile.Cells, FieldFile.ChunkLens, StreamFile,
         Nulls, Roomy;
    hide FieldFile.WellFormed;
    if f.header.dt == target { return f; }
    if f.body == [] {
      out := CastHeaderOnly(f, target, conv);
      return;
    }
    out := CastStream(f, target, conv);
    if f.header.IsChunked() { out := Recompress(f, target, out); }
  }

  /** Nothing to convert: a new header, its storage form copied. */
  method CastHeaderOnly(f: FieldFile, target: DataType, ghost conv: Conversion) returns (out: FieldFile)
    requires f.WellFormed() && f.body == []
    ensures out.WellFormed() && out.Cells() == CastCells(conv, f.Cells())
    ensures out.header == FieldHeader(target, f.header.enc, f.header.comp, f.header.generation, f.header.rows, f.header.nullCount, true)
    ensures f.header.IsChunked() && !f.header.IsAllNull() ==> out.ChunkLens() == f.ChunkLens()
  {
    hide FieldFile.Cells, FieldFile.ChunkLens, FieldFile.Content, Nulls;
    var h := f.header;
    out := CreateEmpty(target, h.rows);
    out := FieldFile(out.header.(generation := h.generation), []);
    if h.IsChunked() { out := FieldFile(out.header.(enc := h.enc, comp := h.comp, hasValidity := true), []); }
    CastEmpty(f, target, conv);
  }

  /** The streamed result compressed again, as the source was and where it was cut. */
  method Recompress(f: FieldFile, target: DataType, tmp: FieldFile) returns (out: FieldFile)
    requires f.WellFormed() && f.header.IsChunked() && f.body != []
    requires Roomy(CastHeader(f.header, target), f.ChunkLens())
    requires tmp.header == PlainHeader(target, f.header.generation, f.header.rows, f.header.nullCount, true) && tmp.WellFormed()
    ensures out.WellFormed() && out.header.dt == target && out.Cells() == tmp.Cells()
    ensures out.header.(hasValidity := true) == f.header.(dt := target, hasValidity := true)
    ensures !f.header.IsAllNull() ==> out.ChunkLens() == f.ChunkLens()
  {
    hide FieldFile.Content, FieldFile.Cells, FieldFile.ChunkLens, StreamFile, Nulls, EvenLens, Roomy, Stores, Sum;
    hide FieldFile.WellFormed;
    FormLaid(f);
    var h := f.header;
    ghost var lens := f.ChunkLens();
    var starts := ChunkStarts(f);
    ChunkedNotEmpty(f);
    OwnStarts(lens, h.rows);
    CastShape(tmp);
    var r, lens' := Compress(tmp, Some(starts), h.enc, h.comp);
    out := r.value;
    if h.IsAllNull() {
      CompressedEmpty(tmp, h.enc, h.comp);
    } else {
      StartsDetermine(lens, lens');
      Recompressed(f, target, tmp);
    }
  }

  lemma Recompressed(f: FieldFile, target: DataType, tmp: FieldFile)
    requires f.WellFormed() && f.header.IsChunked() && tmp.body != [] && tmp.header.rows > 0
    requires Roomy(CastHeader(f.header, target), f.ChunkLens())
    requires tmp.header == PlainHeader(target, f.header.generation, f.header.rows, f.header.nullCount, true) && tmp.WellFormed()
    requires Sum(f.ChunkLens()) == f.header.rows && |tmp.body| >= tmp.header.DataLength() + tmp.header.ValidityLength()
    ensures var out := StreamFile(CompressedHeader(tmp.header, f.header.enc, f.header.comp),
                                  tmp.body[..tmp.header.DataLength()], PlainBits(tmp), f.ChunkLens());
            && out.WellFormed() && out.Cells() == tmp.Cells() && out.ChunkLens() == f.ChunkLens()
            && out.header == CompressedHeader(tmp.header, f.header.enc, f.header.comp)
  {
    hide FieldFile.Content, FieldFile.Cells, FieldFile.ChunkLens, StreamBytes, Split, Nulls, EvenLens, Roomy,
         Stores, Sum;
    var h, lens := f.header, f.ChunkLens();
    RoomySame(CastHeader(h, target), CompressedHeader(tmp.header, h.enc, h.comp), lens);
    RoomyCut(CompressedHeader(tmp.header, h.enc, h.comp), tmp, lens);
    CompressedExact(tmp, h.enc, h.comp, lens);
    SameContentCells(tmp, StreamFile(CompressedHeader(tmp.header, h.enc, h.comp), tmp.body[..tmp.header.DataLength()], PlainBits(tmp), lens));
  }

  lemma FormLaid(f: FieldFile)
    requires f.WellFormed()
    ensures f.Laid()
  {
  }

  /** The chunk starts a handle reads from the file it opens. */
  method ChunkStarts(f: FieldFile) returns (starts: seq<nat>)
    requires f.WellFormed() && f.header.IsChunked()
    ensures starts == Starts(f.ChunkLens())
  {
    var h := Open(f, ReadOnly);
    return Starts(h.value.lens);
  }

  lemma ChunkedNotEmpty(f: FieldFile)
    requires f.WellFormed() && f.header.IsChunked() && f.body != []
    ensures f.header.rows > 0 && Sum(f.ChunkLens()) == f.header.rows
    ensures forall i :: 0 <= i < |f.ChunkLens()| ==> f.ChunkLens()[i] > 0
  {
    hide DecodedStream, Nulls, FieldFile.Content, Sum;
    DecodedSome(f.header.enc, f.header.Codec(), f.header.dt, f.body);
    var lens := f.ChunkLens();
    SumStep(lens, 0);
    assert lens[0] > 0;
  }

  lemma DecodedSome(enc: Encoding, codec: Compressor, dt: DataType, body: seq<byte>)
    requires body != [] && DecodedStream(enc, codec, dt, body).Ok?
    ensures DecodedStream(enc, codec, dt, body).value != []
  {
    hide DecodedChunk, HeaderFrom;
  }
}
