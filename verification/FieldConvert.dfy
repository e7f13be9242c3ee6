/** Changing how a field is stored: creating it plain or compressed, compressing,
    decompressing and casting. */
module FieldConvert {
  import opened Bits
  import opened Bitmap
  import opened Chunk
  import opened ChunkBounds
  import opened ChunkStream
  import opened Columns
  import opened FieldFiles
  import opened Formats
  import opened Order
  import opened Stitch

  /** An owned column: values, and validity bytes from bit 0 when it has any. */
  datatype Owned = Owned(dt: DataType, values: seq<byte>, validity: Option<seq<byte>>, rows: nat) {
    predicate Valid() {
      |values| == rows * dt.SizeOf() && (validity.Some? ==> |validity.value| == ValiditySize(rows))
    }

    function Bits(): (r: seq<bool>)
      requires Valid()
      ensures |r| == rows
    {
      if validity.Some? then BitsOf(validity.value, 0, rows) else Same(true, rows)
    }
  }

  function PlainHeader(dt: DataType, generation: nat, rows: nat, nulls: nat, hasValidity: bool): FieldHeader {
    FieldHeader(dt, Plain, Uncompressed, generation, rows, nulls, hasValidity)
  }

  // ----- creating

  method NullCount(c: Owned) returns (n: nat)
    requires c.Valid()
    ensures n == Nulls(c.Bits())
  {
    hide CountTrue;
    if c.validity.None? {
      CountTrueFull(Same(true, c.rows));
      return 0;
    }
    var ones := CountOnes(c.validity.value, 0, c.rows);
    return c.rows - ones;
  }

  /** A plain file of a column: values, then validity. */
  method CreatePlain(dt: DataType, c: Owned) returns (r: Result<FieldFile>)
    requires c.Valid()
    ensures r.Ok? <==> c.dt == dt
    ensures r.Ok? ==> r.value.WellFormed() && r.value.Content() == Column(c.values, c.Bits())
    ensures r.Ok? ==> r.value == FieldFile(PlainHeader(dt, 1, c.rows, Nulls(c.Bits()), c.validity.Some?),
                                           c.values + (if c.validity.Some? then c.validity.value else []))
    ensures r.Ok? ==> r.value.header == FieldHeader(dt, Plain, Uncompressed, 1, c.rows, Nulls(c.Bits()), c.validity.Some?)
  {
    hide Nulls, BitsOf;
    if c.dt != dt { return Err(Invalid); }
    var nulls := NullCount(c);
    var h := PlainHeader(dt, 1, c.rows, nulls, c.validity.Some?);
    var raw := if c.validity.Some? then c.validity.value else [];
    PlainParts(h, c.values, raw, []);
    assert c.values + raw + [] == c.values + raw;
    assert c.values + raw == [] ==> c.rows == 0;
    return Ok(FieldFile(h, c.values + raw));
  }

  /** An all-NULL field: the header alone. */
  method CreateEmpty(dt: DataType, rows: nat) returns (f: FieldFile)
    ensures f.WellFormed() && f.Cells() == seq(rows, _ => None)
    ensures f == FieldFile(FieldHeader(dt, Plain, Uncompressed, 1, rows, rows, true), [])
  {
    BlankCells(dt, rows);
    f := FieldFile(PlainHeader(dt, 1, rows, rows, true), []);
    if rows == 0 { assert f.Content().bits == []; assert f.Cells() == []; }
  }

  /** A column written compressed in one pass. */
  method CreateChunked(dt: DataType, c: Owned, codec: Compressor, offsets: Option<seq<nat>>) returns (r: Result<FieldFile>, ghost lens: seq<nat>)
    requires c.Valid()
    ensures r.Ok? <==> OffsetsValid(c.rows, offsets) && c.dt == dt
    ensures r.Ok? ==> Sum(lens) == c.rows && forall i :: 0 <= i < |lens| ==> lens[i] > 0
    ensures r.Ok? ==> (if offsets.Some? then Starts(lens) == SortDistinct(offsets.value) else lens == EvenLens(c.rows))
    ensures r.Ok? ==> Cuttable(c.values, RawBits(c.validity, c.rows), dt, c.rows)
    ensures r.Ok? ==> r.value == StreamFile(PlainHeader(dt, 1, c.rows, Nulls(c.Bits()), false).(comp := Compressed(codec)),
                                            c.values, RawBits(c.validity, c.rows), lens)
    ensures r.Ok? ==> r.value.header == FieldHeader(dt, Plain, Compressed(codec), 1, c.rows, Nulls(c.Bits()), false)
  {
    hide Nulls, BitsOf, StreamBytes, Sum, Split;
    lens := [];
    var bounds := ChunkBoundaries(c.rows, offsets);
    if bounds.Err? { return Err(bounds.error), lens; }
    if c.dt != dt { return Err(Invalid), lens; }
    lens := bounds.value;
    var body := EncodeRows(Plain, codec, dt, c.values, c.validity, c.rows, bounds.value);
    var nulls := NullCount(c);
    return Ok(FieldFile(PlainHeader(dt, 1, c.rows, nulls, false).(comp := Compressed(codec)), body)), lens;
  }

  // ----- compressing

  /** The header of the compressed form of a plain file with data. */
  function CompressedHeader(h: FieldHeader, enc: Encoding, comp: Compression): FieldHeader {
    h.(enc := enc, comp := comp, hasValidity := false)
  }

  /** The validity region of a plain body, if there is one. */
  function Region(f: FieldFile): (r: Option<seq<byte>>)
    requires |f.body| >= f.header.DataLength() + f.header.ValidityLength()
    ensures r.Some? ==> |r.value| == ValiditySize(f.header.rows)
  {
    var d := f.header.DataLength();
    if f.header.ValidityLength() > 0 then Some(f.body[d..d + f.header.ValidityLength()]) else None
  }

  /** Rewrites a plain field as chunks cut at `offsets`. An all-NULL field keeps only its header. */
  method Compress(f: FieldFile, offsets: Option<seq<nat>>, enc: Encoding, comp: Compression)
    returns (r: Result<FieldFile>, ghost lens: seq<nat>)
    ensures r.Ok? <==> (!f.header.IsChunked()
                    && (f.body == [] || (f.header.rows > 0 && f.header.nullCount == f.header.rows) || (OffsetsValid(f.header.rows, offsets) && !f.Truncated())))
    ensures r.Ok? && (f.body == [] || (f.header.rows > 0 && f.header.nullCount == f.header.rows)) ==>
              r.value == FieldFile(f.header.(enc := enc, comp := comp, hasValidity := true), [])
    ensures r.Ok? && f.body != [] && !(f.header.rows > 0 && f.header.nullCount == f.header.rows) ==>
              && Sum(lens) == f.header.rows && (forall i :: 0 <= i < |lens| ==> lens[i] > 0)
              && (if offsets.Some? then Starts(lens) == SortDistinct(offsets.value) else lens == EvenLens(f.header.rows))
              && |f.body| >= f.header.DataLength() + f.header.ValidityLength()
              && r.value == StreamFile(CompressedHeader(f.header, enc, comp), f.body[..f.header.DataLength()],
                                       RawBits(Region(f), f.header.rows), lens)
              && r.value.header == f.header.(enc := enc, comp := comp, hasValidity := false)
  {
    hide BitsOf, StreamBytes, Sum, Split, EvenLens;
    lens := [];
    if f.header.IsChunked() { return Err(InvalidState), lens; }
    if f.body == [] || f.header.IsAllNull() {
      return Ok(FieldFile(f.header.(enc := enc, comp := comp, hasValidity := true), [])), lens;
    }
    var bounds := ChunkBoundaries(f.header.rows, offsets);
    if bounds.Err? { return Err(bounds.error), lens; }
    lens := bounds.value;
    var d := f.header.DataLength();
    if |f.body| < d + f.header.ValidityLength() { return Err(InvalidState), lens; }
    var body := EncodeRows(enc, if comp.Compressed? then comp.codec else STORED, f.header.dt, f.body[..d], Region(f),
                           f.header.rows, bounds.value);
    return Ok(FieldFile(CompressedHeader(f.header, enc, comp), body)), lens;
  }

  /** The validity of a plain body as the chunks carry it. */
  ghost function PlainBits(f: FieldFile): (r: Option<seq<bool>>)
    requires |f.body| >= f.header.DataLength() + f.header.ValidityLength()
    ensures r.Some? ==> |r.value| == f.header.rows
  {
    RawBits(Region(f), f.header.rows)
  }

  /** A header-only compressed file has the cells of the all-NULL file it came from. */
  lemma CompressedEmpty(f: FieldFile, enc: Encoding, comp: Compression)
    requires f.WellFormed() && !f.header.IsChunked() && (!enc.Plain? || comp.Compressed?)
    requires f.body == [] || f.header.IsAllNull()
    ensures var g := FieldFile(f.header.(enc := enc, comp := comp, hasValidity := true), []);
            g.WellFormed() && g.Cells() == f.Cells()
  {
    hide Nulls, CellsFrom;
    var h := f.header;
    var g := FieldFile(h.(enc := enc, comp := comp, hasValidity := true), []);
    BlankCells(h.dt, h.rows);
    EvenSum(h.rows);
    if h.rows > 0 {
      assert g.HeaderOnly();
      AllNullCells(f.Content(), h.dt, h.rows);
    } else {
      StreamNone(enc, g.header.Codec(), h.dt);
      SumNone();
      JoinNone(h.dt);
      assert f.Content() == g.Content();
    }
  }

  lemma JoinNone(dt: DataType)
    ensures JoinValues([]) == [] && JoinBits([], dt) == [] && Lens([]) == []
  {
  }

  /** Compression keeps the column: values, validity of every row, and the NULL count. */
  lemma CompressedExact(f: FieldFile, enc: Encoding, comp: Compression, lens: seq<nat>)
    requires f.WellFormed() && !f.header.IsChunked() && (!enc.Plain? || comp.Compressed?)
    requires f.body != [] && Sum(lens) == f.header.rows
    requires |f.body| >= f.header.DataLength() + f.header.ValidityLength()
    requires Stores(CompressedHeader(f.header, enc, comp), f.body[..f.header.DataLength()], PlainBits(f), lens)
    ensures var g := StreamFile(CompressedHeader(f.header, enc, comp), f.body[..f.header.DataLength()], PlainBits(f), lens);
            && g.WellFormed() && g.Content() == f.Content() && g.ChunkLens() == lens
            && g.Chunks() == Split(f.body[..f.header.DataLength()], PlainBits(f), f.header.dt, f.header.rows, lens)
  {
    hide Nulls, BitsOf, Split, Sum, StreamBytes, Stores;
    var h := CompressedHeader(f.header, enc, comp);
    StreamFileExact(h, f.body[..f.header.DataLength()], PlainBits(f), lens);
    assert AllBits(PlainBits(f), f.header.rows) == f.Content().bits by {
      if f.header.rows == 0 { assert f.Content().bits == []; }
    }
  }

  // ----- decompressing

  /** Some chunk carries validity bytes. */
  predicate Carries(cs: seq<ChunkData>) {
    exists i :: 0 <= i < |cs| && cs[i].validity.Some?
  }

  /** Rewrites a compressed field as plain values and one validity region, chunk by chunk;
      the bits that do not fill a byte are carried into the next chunk. */
  method Decompress(f: FieldFile) returns (r: Result<FieldFile>)
    ensures r.Ok? <==> f.header.IsChunked() && (f.body == [] || f.StreamReadable())
    ensures r.Ok? && f.body == [] ==>
              r.value == FieldFile(PlainHeader(f.header.dt, f.header.generation, f.header.rows, f.header.nullCount, true), [])
    ensures r.Ok? && f.body != [] ==>
              var cs := f.Chunks();
              r.value == FieldFile(PlainHeader(f.header.dt, f.header.generation, f.header.rows, f.header.nullCount, Carries(cs)),
                                   JoinValues(cs) + (if Carries(cs) then Pack(JoinBits(cs, f.header.dt)) else []))
    ensures r.Ok? ==> var h := r.value.header;
              h == f.header.(enc := Plain, comp := Uncompressed, hasValidity := h.hasValidity)
  {
    hide DecodedStream, ReadSoFar, Sum, JoinValues, JoinBits, Stitched, Pack, Shaped, ChunkBits, DataType.SizeOf;
    var h := f.header;
    if !h.IsChunked() { return Err(InvalidState); }
    if f.body == [] { return Ok(FieldFile(PlainHeader(h.dt, h.generation, h.rows, h.nullCount, true), [])); }
    var values, stream, acc, accBits, saw := [], [], 0, 0, false;
    var pos := 0;
    ghost var done: seq<ChunkData> := [];
    ReadNone(h.enc, h.Codec(), h.dt, f.body);
    JoinNone(h.dt);
    StitchedNone();
    while pos < |f.body|
      invariant 0 <= pos <= |f.body| && 0 <= acc && 0 <= accBits
      invariant ReadSoFar(h.enc, h.Codec(), h.dt, f.body, done, pos) && AllShaped(done, h.dt)
      invariant values == JoinValues(done) && Stitched(stream, acc, accBits, JoinBits(done, h.dt))
      invariant saw == Carries(done)
      decreases |f.body| - pos
    {
      var c, next := ReadChunk(h.enc, h.Codec(), h.dt, f.body, done, pos);
      if c.None? { return Err(InvalidState); }
      JoinMore(done, c.value, h.dt);
      BitsOfChunk(c.value, h.dt);
      CarriesMore(done, c.value);
      values := values + c.value.values;
      if c.value.validity.Some? { saw := true; }
      stream, acc, accBits := StitchChunk(c.value.validity, c.value.rows, stream, acc, accBits, JoinBits(done, h.dt));
      done := done + [c.value];
      pos := next;
    }
    ReadAll(h.enc, h.Codec(), h.dt, f.body, done);
    JoinSize(done, h.dt);
    SizeTells(Sum(Lens(done)), h.rows, h.dt);
    if |values| != h.rows * h.dt.SizeOf() { return Err(InvalidState); }
    StitchedEnd(stream, acc, accBits, JoinBits(done, h.dt));
    if saw && accBits > 0 { stream := stream + [acc as byte]; }
    return Ok(FieldFile(PlainHeader(h.dt, h.generation, h.rows, h.nullCount, saw), values + (if saw then stream else [])));
  }

  lemma BitsOfChunk(c: ChunkData, dt: DataType)
    requires Shaped(c, dt)
    ensures c.validity.Some? ==> c.rows <= 8 * |c.validity.value|
    ensures ChunkBits(c) == if c.validity.Some? then BitsOf(c.validity.value, 0, c.rows) else Same(true, c.rows)
  {
  }

  lemma CarriesMore(cs: seq<ChunkData>, c: ChunkData)
    ensures Carries(cs + [c]) <==> Carries(cs) || c.validity.Some?
  {
    if Carries(cs) {
      var i :| 0 <= i < |cs| && cs[i].validity.Some?;
      assert (cs + [c])[i] == cs[i];
    }
    if c.validity.Some? { assert (cs + [c])[|cs|] == c; }
  }

  lemma SizeTells(a: nat, b: nat, dt: DataType)
    ensures a * dt.SizeOf() == b * dt.SizeOf() <==> a == b
  {
    if a < b { MulSum(a, b - a, dt.SizeOf()); }
    if b < a { MulSum(b, a - b, dt.SizeOf()); }
  }

  lemma {:induction false} NothingCarried(cs: seq<ChunkData>, dt: DataType)
    requires AllShaped(cs, dt) && !Carries(cs)
    ensures JoinBits(cs, dt) == Same(true, Sum(Lens(cs)))
  {
    if cs != [] {
      var m := |cs| - 1;
      assert cs[m].validity.None?;
      assert !Carries(cs[..m]) by { CarriesMore(cs[..m], cs[m]); assert cs[..m] + [cs[m]] == cs; }
      NothingCarried(cs[..m], dt);
      JoinMore(cs[..m], cs[m], dt);
      assert cs[..m] + [cs[m]] == cs;
    }
  }

  /** Decompression keeps the column and its NULL count. */
  lemma DecompressedExact(f: FieldFile)
    requires f.WellFormed() && f.header.IsChunked()
    ensures f.body == [] ==>
              var g := FieldFile(PlainHeader(f.header.dt, f.header.generation, f.header.rows, f.header.nullCount, true), []);
              g.WellFormed() && g.Content() == f.Content()
    ensures f.body != [] ==>
              var cs := f.Chunks();
              var g := FieldFile(PlainHeader(f.header.dt, f.header.generation, f.header.rows, f.header.nullCount, Carries(cs)),
                                 JoinValues(cs) + (if Carries(cs) then Pack(JoinBits(cs, f.header.dt)) else []));
              g.WellFormed() && g.Content() == f.Content()
  {
    hide Nulls, BitsOf, Sum, DecodedStream, JoinValues, JoinBits, Pack;
    var h := f.header;
    if f.body != [] {
      var cs := f.Chunks();
      JoinSize(cs, h.dt);
      var bits := JoinBits(cs, h.dt);
      var g := PlainHeader(h.dt, h.generation, h.rows, h.nullCount, Carries(cs));
      PackedBits(bits);
      PlainParts(g, JoinValues(cs), Pack(bits), []);
      var body := JoinValues(cs) + (if Carries(cs) then Pack(bits) else []);
      assert body + [] == body;
      if !Carries(cs) { NothingCarried(cs, h.dt); }
      assert body == [] ==> h.rows == 0;
    } else if h.rows == 0 {
      DecodesNone(h);
    }
  }

  lemma PackedBits(bits: seq<bool>)
    ensures |Pack(bits)| == ValiditySize(|bits|) && BitsOf(Pack(bits), 0, |bits|) == bits
  {
  }

  lemma DecodesNone(h: FieldHeader)
    requires h.rows == 0 && h.IsChunked()
    ensures var f := FieldFile(h, []);
            f.Laid() ==> f.Content() == Column([], [])
  {
    JoinNone(h.dt);
  }

  // ----- there and back, and two ways of creating

  /** The codec can store these rows however they are cut. */
  ghost predicate StoresAnyCut(h: FieldHeader, values: seq<byte>, bits: Option<seq<bool>>)
    requires Cuttable(values, bits, h.dt, h.rows)
  {
    forall lens :: Sum(lens) == h.rows && (forall i :: 0 <= i < |lens| ==> lens[i] > 0) ==> Stores(h, values, bits, lens)
  }

  lemma {:induction false} SplitCarries(values: seq<byte>, bits: Option<seq<bool>>, dt: DataType, n: nat, lens: seq<nat>)
    requires Cuttable(values, bits, dt, n) && Sum(lens) <= n
    ensures Carries(Split(values, bits, dt, n, lens)) <==> bits.Some? && lens != []
  {
    hide Cut, Shaped;
    if lens != [] {
      var m := |lens| - 1;
      SplitMore(values, bits, dt, n, lens);
      SplitCarries(values, bits, dt, n, lens[..m]);
      CutCarries(values, bits, dt, Sum(lens[..m]), lens[m]);
      CarriesMore(Split(values, bits, dt, n, lens[..m]), Cut(values, bits, dt, Sum(lens[..m]), lens[m]));
    }
  }

  lemma CutCarries(values: seq<byte>, bits: Option<seq<bool>>, dt: DataType, lo: nat, n: nat)
    requires (lo + n) * dt.SizeOf() <= |values| && (bits.Some? ==> lo + n <= |bits.value|)
    ensures Cut(values, bits, dt, lo, n).validity.Some? == bits.Some?
  {
  }

  /** Compressing at any valid offsets and decompressing again: a column with a valid row
      comes back byte for byte of its values and bit for bit of its validity, with the
      same NULL count and generation; an all-NULL one comes back all NULL. */
  method CompressAndBack(f: FieldFile, offsets: Option<seq<nat>>, codec: Compressor) returns (packed: FieldFile, back: FieldFile)
    requires f.WellFormed() && !f.header.IsChunked() && f.header.rows > 0
    requires OffsetsValid(f.header.rows, offsets)
    requires f.body != [] ==> StoresAnyCut(CompressedHeader(f.header, Plain, Compressed(codec)), f.body[..f.header.DataLength()], PlainBits(f))
    ensures packed.WellFormed() && packed.header.IsChunked() && packed.Cells() == f.Cells()
    ensures packed.header.nullCount == f.header.nullCount && packed.header.generation == f.header.generation
    ensures !f.header.IsAllNull() && offsets.Some? ==> Starts(packed.ChunkLens()) == SortDistinct(offsets.value)
    ensures back.WellFormed() && !back.header.IsChunked() && back.Cells() == f.Cells()
    ensures !f.header.IsAllNull() ==> back.header == f.header && back.Content() == f.Content()
    ensures f.header.IsAllNull() ==> back == FieldFile(f.header.(hasValidity := true), [])
  {
    hide Nulls, Sum, Split, StreamBytes, Stores, FieldFile.Content, FieldFile.Cells, Carries;
    var g, lens := Compress(f, offsets, Plain, Compressed(codec));
    packed := g.value;
    PlainNotEmpty(f);
    if f.body == [] || f.header.IsAllNull() {
      CompressedEmpty(f, Plain, Compressed(codec));
    } else {
      CompressedExact(f, Plain, Compressed(codec), lens);
      SplitCarries(f.body[..f.header.DataLength()], PlainBits(f), f.header.dt, f.header.rows, lens);
      SumNone();
    }
    SameContentCells(f, packed);
    var b := Decompress(packed);
    back := b.value;
    DecompressedExact(packed);
    SameContentCells(packed, back);
  }

  lemma PlainNotEmpty(f: FieldFile)
    requires f.WellFormed() && !f.header.IsChunked() && f.header.rows > 0
    ensures f.body == [] ==> f.header.IsAllNull()
    ensures f.body != [] ==> |f.body| >= f.header.DataLength() + f.header.ValidityLength()
    ensures f.header.hasValidity ==> f.header.ValidityLength() > 0
  {
    hide Nulls;
    BlankCells(f.header.dt, f.header.rows);
  }

  lemma SameContentCells(f: FieldFile, g: FieldFile)
    ensures f.Laid() && g.Laid() && f.header.dt == g.header.dt && f.Content() == g.Content() ==> f.Cells() == g.Cells()
  {
  }

  /** The region of a plain file just created is the column's own validity. */
  lemma CreatedRegion(f: FieldFile, c: Owned)
    requires c.Valid() && f.header == PlainHeader(c.dt, 1, c.rows, Nulls(c.Bits()), c.validity.Some?)
    requires f.body == c.values + (if c.validity.Some? then c.validity.value else []) && c.rows > 0
    ensures |f.body| >= f.header.DataLength() + f.header.ValidityLength()
    ensures f.body[..f.header.DataLength()] == c.values && Region(f) == c.validity
  {
    hide Nulls, BitsOf;
    assert f.body[..|c.values|] == c.values;
    if c.validity.Some? {
      assert f.body[|c.values|..|c.values| + |c.validity.value|] == c.validity.value;
    }
  }

  lemma {:induction false} StartsDetermine(a: seq<nat>, b: seq<nat>)
    requires Starts(a) == Starts(b) && Sum(a) == Sum(b)
    ensures a == b
  {
    assert |a| == |Starts(a)| && |b| == |Starts(b)|;
    forall i | 0 <= i < |a|
      ensures a[i] == b[i]
    {
      SumStep(a, i);
      SumStep(b, i);
      assert Starts(a)[i] == Starts(b)[i];
      if i + 1 < |a| { assert Starts(a)[i + 1] == Starts(b)[i + 1]; }
      else { assert a[..i + 1] == a && b[..i + 1] == b; }
    }
  }

  /** Writing a column compressed at once and writing it plain first and compressing then
      leave the same file exactly when some row is valid. */
  method CreateBothWays(c: Owned, codec: Compressor, offsets: Option<seq<nat>>)
    returns (direct: Result<FieldFile>, plain: Result<FieldFile>, later: Result<FieldFile>)
    requires c.Valid()
    ensures plain.Ok? && (direct.Ok? <==> OffsetsValid(c.rows, offsets))
    ensures direct.Ok? ==> later.Ok?
    ensures direct.Ok? ==> (direct == later <==> Nulls(c.Bits()) < c.rows)
  {
    hide Nulls, Sum, Split, StreamBytes, Stores, Owned.Bits, EvenLens;
    ghost var lens, lens';
    direct, lens := CreateChunked(c.dt, c, codec, offsets);
    plain := CreatePlain(c.dt, c);
    later, lens' := Compress(plain.value, offsets, Plain, Compressed(codec));
    if direct.Ok? && Nulls(c.Bits()) < c.rows {
      CreatedRegion(plain.value, c);
      assert plain.value.body != [];
      if offsets.Some? { StartsDetermine(lens, lens'); }
    }
    if c.rows == 0 { EmptyOwned(c); }
  }

  lemma EmptyOwned(c: Owned)
    requires c.Valid() && c.rows == 0
    ensures c.values == [] && (c.validity.Some? ==> c.validity.value == [])
  {
  }
}
