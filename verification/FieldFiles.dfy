/** A field file: a header, then nothing (every row NULL), plain values and validity
    bits, or a chunk stream. All three forms stand for one nullable column. */
module FieldFiles {
  import opened Bits
  import opened Bitmap
  import opened Chunk
  import opened ChunkStream
  import opened Columns
  import opened Formats

  datatype Compression = Uncompressed | Compressed(codec: Compressor)

  /** `Compression::None`: the chunk payload is stored as it is. */
  const STORED := Compressor((x: seq<byte>) => x, (x: seq<byte>) => Ok(x))

  lemma StoredLossless()
    ensures Lossless(STORED)
  {
  }

  datatype FieldHeader = FieldHeader(dt: DataType, enc: Encoding, comp: Compression, generation: nat,
                                     rows: nat, nullCount: nat, hasValidity: bool)
  {
    predicate IsChunked() { !enc.Plain? || comp.Compressed? }

    predicate IsAllNull() { rows > 0 && nullCount == rows }

    function Codec(): Compressor { if comp.Compressed? then comp.codec else STORED }

    function DataLength(): nat { rows * dt.SizeOf() }

    function ValidityLength(): nat { if hasValidity then ValiditySize(rows) else 0 }
  }

  /** Rows per chunk where nothing else decides. */
  const CREATE_CHUNK_ROWS := 8192

  function EvenLens(rows: nat): (lens: seq<nat>) {
    if rows == 0 then [] else
      var n := Min(rows, CREATE_CHUNK_ROWS);
      [n] + EvenLens(rows - n)
  }

  lemma {:induction false} EvenSum(rows: nat)
    ensures Sum(EvenLens(rows)) == rows
    ensures forall i :: 0 <= i < |EvenLens(rows)| ==> 0 < EvenLens(rows)[i] <= CREATE_CHUNK_ROWS
  {
    if rows > 0 {
      var n := Min(rows, CREATE_CHUNK_ROWS);
      EvenSum(rows - n);
      SumFront(n, EvenLens(rows - n));
    } else {
      SumNone();
    }
  }

  /** Every default chunk but the last has 8192 rows, the last at least one and at most as many. */
  lemma {:induction false} EvenLengths(rows: nat, i: nat)
    requires i < |EvenLens(rows)|
    ensures EvenLens(rows)[i] == if i < |EvenLens(rows)| - 1 then 8192 else rows - 8192 * i
    ensures i == |EvenLens(rows)| - 1 ==> 8192 * i < rows <= 8192 * (i + 1)
  {
    if rows > 8192 {
      if i > 0 { EvenLengths(rows - 8192, i - 1); }
    }
  }

  lemma {:induction false} SumFront(n: nat, lens: seq<nat>)
    ensures Sum([n] + lens) == n + Sum(lens)
  {
    if lens == [] {
      assert [n] + lens == [] + [n];
      SumMore([], n);
    } else {
      var m := |lens| - 1;
      assert [n] + lens == ([n] + lens[..m]) + [lens[m]];
      assert lens == lens[..m] + [lens[m]];
      SumFront(n, lens[..m]);
      SumMore([n] + lens[..m], lens[m]);
      SumMore(lens[..m], lens[m]);
    }
  }

  datatype FieldFile = FieldFile(header: FieldHeader, body: seq<byte>) {
    /** Only the header is stored. */
    predicate HeaderOnly() { body == [] && header.rows > 0 }

    predicate Truncated() {
      !header.IsChunked() && !HeaderOnly() && |body| < header.DataLength() + header.ValidityLength()
    }

    ghost predicate StreamReadable() {
      Readable(header.enc, header.Codec(), header.dt, header.rows, body)
    }

    /** The layout can be read; a plain body may have bytes after its two regions. */
    ghost predicate Laid() {
      HeaderOnly() || (if header.IsChunked() then StreamReadable() else !Truncated())
    }

    ghost function Chunks(): (cs: seq<ChunkData>)
      requires Laid() && header.IsChunked() && !HeaderOnly()
      ensures AllShaped(cs, header.dt) && Sum(Lens(cs)) == header.rows
    {
      DecodedShaped(header.enc, header.Codec(), header.dt, body);
      DecodedStream(header.enc, header.Codec(), header.dt, body).value
    }

    /** How the rows are grouped: as the stream says, or evenly when there is none yet. */
    ghost function ChunkLens(): (lens: seq<nat>)
      requires Laid() && header.IsChunked()
      ensures Sum(lens) == header.rows
    {
      EvenSum(header.rows);
      if HeaderOnly() then EvenLens(header.rows) else Lens(Chunks())
    }

    ghost function Content(): (c: Column)
      requires Laid()
      ensures c.Valid(header.dt, header.rows)
    {
      var h := header;
      if HeaderOnly() then Blank(h.dt, h.rows)
      else if h.IsChunked() then
        JoinSize(Chunks(), h.dt);
        Column(JoinValues(Chunks()), JoinBits(Chunks(), h.dt))
      else PlainColumn(h, body)
    }

    ghost function Cells(): (r: seq<CellValue>)
      requires Laid()
      ensures |r| == header.rows
    {
      Content().Cells(header.dt)
    }

    /** A file as the library writes it: readable, its NULL count exact, and a validity
        region announced when a plain file stores nothing but its header, no chunk empty. */
    ghost predicate WellFormed() {
      && Laid()
      && header.nullCount == Nulls(Content().bits)
      && (HeaderOnly() && !header.IsChunked() ==> header.hasValidity)
      && (header.IsChunked() ==> forall i :: 0 <= i < |ChunkLens()| ==> ChunkLens()[i] > 0)
    }
  }

  /** A column's values and validity. */
  datatype Column = Column(values: seq<byte>, bits: seq<bool>) {
    predicate Valid(dt: DataType, rows: nat) { |values| == rows * dt.SizeOf() && |bits| == rows }

    function Cells(dt: DataType): (r: seq<CellValue>)
      requires Valid(dt, |bits|)
      ensures |r| == |bits|
    {
      CellsFrom(values, bits, dt.SizeOf())
    }
  }

  /** Zero bytes and no valid row. */
  function Blank(dt: DataType, rows: nat): (c: Column)
    ensures c.Valid(dt, rows)
  {
    Column(seq(rows * dt.SizeOf(), _ => 0), Same(false, rows))
  }

  function PlainColumn(h: FieldHeader, body: seq<byte>): (c: Column)
    requires |body| >= h.DataLength() + h.ValidityLength()
    ensures c.Valid(h.dt, h.rows)
  {
    var d := h.DataLength();
    Column(body[..d], if h.hasValidity then BitsOf(body[d..d + ValiditySize(h.rows)], 0, h.rows) else Same(true, h.rows))
  }

  /** A plain body in two regions. */
  lemma PlainParts(h: FieldHeader, values: seq<byte>, bits: seq<byte>, tail: seq<byte>)
    requires |values| == h.DataLength() && (h.hasValidity ==> |bits| == ValiditySize(h.rows))
    ensures var body := values + (if h.hasValidity then bits else []) + tail;
            && |body| >= h.DataLength() + h.ValidityLength()
            && (h.hasValidity ==> h.rows <= 8 * |bits|)
            && PlainColumn(h, body) == Column(values, if h.hasValidity then BitsOf(bits, 0, h.rows) else Same(true, h.rows))
  {
    var body := values + (if h.hasValidity then bits else []) + tail;
    assert body[..|values|] == values;
    if h.hasValidity { assert body[|values|..|values| + |bits|] == bits; }
  }

  /** All cells of a blank column are NULL, and only all-NULL columns have that many NULLs. */
  lemma BlankCells(dt: DataType, rows: nat)
    ensures Nulls(Blank(dt, rows).bits) == rows
    ensures Blank(dt, rows).Cells(dt) == seq(rows, _ => None)
  {
    CountTrueNone(Same(false, rows));
  }

  lemma AllNullCells(c: Column, dt: DataType, rows: nat)
    requires c.Valid(dt, rows) && Nulls(c.bits) == rows
    ensures c.bits == Same(false, rows)
    ensures c.Cells(dt) == Blank(dt, rows).Cells(dt)
  {
    CountTrueNone(c.bits);
  }

  /** The compressed file of a column, cut at `lens`. */
  ghost function StreamFile(h: FieldHeader, values: seq<byte>, bits: Option<seq<bool>>, lens: seq<nat>): FieldFile
    requires Cuttable(values, bits, h.dt, h.rows) && Sum(lens) == h.rows
  {
    FieldFile(h, StreamBytes(h.enc, h.Codec(), h.dt, Split(values, bits, h.dt, h.rows, lens)))
  }

  /** The codec can store a column of this header in these chunks. */
  ghost predicate Stores(h: FieldHeader, values: seq<byte>, bits: Option<seq<bool>>, lens: seq<nat>)
    requires Cuttable(values, bits, h.dt, h.rows) && Sum(lens) == h.rows
  {
    Lossless(h.Codec()) && Storable(h.enc, h.Codec(), h.dt, Split(values, bits, h.dt, h.rows, lens))
  }

  /** A stored column reads back whole, in the same chunks. */
  lemma StreamFileExact(h: FieldHeader, values: seq<byte>, bits: Option<seq<bool>>, lens: seq<nat>)
    requires h.IsChunked() && Cuttable(values, bits, h.dt, h.rows) && Sum(lens) == h.rows
    requires Stores(h, values, bits, lens)
    ensures var f := StreamFile(h, values, bits, lens);
            && f.Laid() && !f.HeaderOnly() && f.ChunkLens() == lens
            && f.Content() == Column(values, AllBits(bits, h.rows))
            && f.Chunks() == Split(values, bits, h.dt, h.rows, lens)
    ensures forall i :: 0 <= i < |lens| ==> lens[i] > 0
  {
    hide StreamBytes, DecodedStream, Split, Sum, JoinValues, JoinBits, AllBits, Lossless, Storable;
    var cs := Split(values, bits, h.dt, h.rows, lens);
    StreamRoundTrip(h.enc, h.Codec(), h.dt, cs);
    SplitJoins(values, bits, h.dt, h.rows, lens);
    StreamEmpty(h.enc, h.Codec(), h.dt, cs);
    StorablePositive(h.enc, h.Codec(), h.dt, cs);
    var f := StreamFile(h, values, bits, lens);
    assert values[..Sum(lens) * h.dt.SizeOf()] == values;
    assert AllBits(bits, h.rows)[..Sum(lens)] == AllBits(bits, h.rows);
  }

  lemma StorablePositive(enc: Encoding, codec: Compressor, dt: DataType, cs: seq<ChunkData>)
    requires Storable(enc, codec, dt, cs)
    ensures forall i :: 0 <= i < |cs| ==> Lens(cs)[i] > 0
  {
  }

  lemma StreamEmpty(enc: Encoding, codec: Compressor, dt: DataType, cs: seq<ChunkData>)
    requires AllShaped(cs, dt)
    ensures cs == [] ==> Sum(Lens(cs)) == 0
    ensures cs != [] ==> StreamBytes(enc, codec, dt, cs) != []
  {
    if cs != [] {
      var c := cs[|cs| - 1];
      assert Shaped(c, dt);
      EncodesShaped(enc, codec, dt, c);
      assert |ChunkBytes(enc, codec, dt, c)| >= HEADER_SIZE;
    }
  }
}
