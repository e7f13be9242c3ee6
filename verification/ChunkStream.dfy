/** The body of a compressed field: chunks end to end, each telling its own length. */
module ChunkStream {
  import opened Bits
  import opened Bitmap
  import opened Chunk
  import opened Columns
  import opened Formats

  // ----- chunk lists as values and bits

  ghost predicate AllShaped(cs: seq<ChunkData>, dt: DataType) {
    forall i :: 0 <= i < |cs| ==> Shaped(cs[i], dt)
  }

  /** A chunk without validity bytes is all valid. */
  function ChunkBits(c: ChunkData): (r: seq<bool>)
    requires c.validity.Some? ==> |c.validity.value| == ValiditySize(c.rows)
    ensures |r| == c.rows
  {
    if c.validity.Some? then BitsOf(c.validity.value, 0, c.rows) else Same(true, c.rows)
  }

  function Lens(cs: seq<ChunkData>): (r: seq<nat>)
    ensures |r| == |cs| && forall i :: 0 <= i < |cs| ==> r[i] == cs[i].rows
  {
    seq(|cs|, i requires 0 <= i < |cs| => cs[i].rows)
  }

  function Sum(lens: seq<nat>): nat {
    if lens == [] then 0 else Sum(lens[..|lens| - 1]) + lens[|lens| - 1]
  }

  function JoinValues(cs: seq<ChunkData>): seq<byte> {
    if cs == [] then [] else JoinValues(cs[..|cs| - 1]) + cs[|cs| - 1].values
  }

  ghost function JoinBits(cs: seq<ChunkData>, dt: DataType): (r: seq<bool>)
    requires AllShaped(cs, dt)
    ensures |r| == Sum(Lens(cs))
  {
    if cs == [] then [] else
      assert Lens(cs)[..|cs| - 1] == Lens(cs[..|cs| - 1]);
      JoinBits(cs[..|cs| - 1], dt) + ChunkBits(cs[|cs| - 1])
  }

  lemma {:induction false} JoinSize(cs: seq<ChunkData>, dt: DataType)
    requires AllShaped(cs, dt)
    ensures |JoinValues(cs)| == Sum(Lens(cs)) * dt.SizeOf()
  {
    if cs != [] {
      var m := |cs| - 1;
      assert Lens(cs)[..m] == Lens(cs[..m]);
      JoinSize(cs[..m], dt);
      MulSum(Sum(Lens(cs[..m])), cs[m].rows, dt.SizeOf());
    }
  }

  lemma JoinMore(cs: seq<ChunkData>, c: ChunkData, dt: DataType)
    requires AllShaped(cs, dt) && Shaped(c, dt)
    ensures AllShaped(cs + [c], dt)
    ensures JoinValues(cs + [c]) == JoinValues(cs) + c.values
    ensures JoinBits(cs + [c], dt) == JoinBits(cs, dt) + ChunkBits(c)
    ensures Lens(cs + [c]) == Lens(cs) + [c.rows] && Sum(Lens(cs + [c])) == Sum(Lens(cs)) + c.rows
  {
    assert (cs + [c])[..|cs|] == cs;
    SumMore(Lens(cs), c.rows);
  }

  lemma SumMore(lens: seq<nat>, n: nat)
    ensures Sum(lens + [n]) == Sum(lens) + n
  {
    assert (lens + [n])[..|lens|] == lens;
  }

  lemma {:induction false} SumPrefix(lens: seq<nat>, i: nat)
    requires i <= |lens|
    ensures Sum(lens[..i]) <= Sum(lens)
  {
    if i < |lens| {
      SumPrefix(lens[..|lens| - 1], i);
      assert lens[..|lens| - 1][..i] == lens[..i];
    } else {
      assert lens[..i] == lens;
    }
  }

  lemma SumStep(lens: seq<nat>, i: nat)
    requires i < |lens|
    ensures Sum(lens[..i + 1]) == Sum(lens[..i]) + lens[i] <= Sum(lens)
  {
    assert lens[..i + 1][..i] == lens[..i];
    SumPrefix(lens, i + 1);
  }

  // ----- cutting a column into chunks

  /** Rows `[lo, lo + n)` as a chunk, its bits packed from bit 0. */
  function Cut(values: seq<byte>, bits: Option<seq<bool>>, dt: DataType, lo: nat, n: nat): (c: ChunkData)
    requires (lo + n) * dt.SizeOf() <= |values| && (bits.Some? ==> lo + n <= |bits.value|)
    ensures Shaped(c, dt) && c.rows == n
  {
    var s := dt.SizeOf();
    MulSum(lo, n, s);
    ChunkData(values[lo * s..(lo + n) * s], if bits.Some? then Some(Pack(bits.value[lo..lo + n])) else None, n)
  }

  ghost predicate Cuttable(values: seq<byte>, bits: Option<seq<bool>>, dt: DataType, n: nat) {
    |values| == n * dt.SizeOf() && (bits.Some? ==> |bits.value| == n)
  }

  ghost function Split(values: seq<byte>, bits: Option<seq<bool>>, dt: DataType, n: nat, lens: seq<nat>): (cs: seq<ChunkData>)
    requires Cuttable(values, bits, dt, n) && Sum(lens) <= n
    ensures Lens(cs) == lens && AllShaped(cs, dt)
  {
    if lens == [] then [] else
      var lo, k := Sum(lens[..|lens| - 1]), lens[|lens| - 1];
      MulSum(lo + k, n - (lo + k), dt.SizeOf());
      Split(values, bits, dt, n, lens[..|lens| - 1]) + [Cut(values, bits, dt, lo, k)]
  }

  function AllBits(bits: Option<seq<bool>>, n: nat): (r: seq<bool>)
    requires bits.Some? ==> |bits.value| == n
    ensures |r| == n
  {
    if bits.Some? then bits.value else Same(true, n)
  }

  lemma CutBits(values: seq<byte>, bits: Option<seq<bool>>, dt: DataType, n: nat, lo: nat, k: nat)
    requires Cuttable(values, bits, dt, n) && lo + k <= n
    ensures lo * dt.SizeOf() <= (lo + k) * dt.SizeOf() <= |values|
    ensures Cut(values, bits, dt, lo, k).values == values[lo * dt.SizeOf()..(lo + k) * dt.SizeOf()]
    ensures ChunkBits(Cut(values, bits, dt, lo, k)) == AllBits(bits, n)[lo..lo + k]
  {
    hide DataType.SizeOf, Pack;
    MulSum(lo, k, dt.SizeOf());
    MulSum(lo + k, n - (lo + k), dt.SizeOf());
  }

  /** Cutting and joining is the identity on the rows that were cut. */
  lemma {:induction false} SplitJoins(values: seq<byte>, bits: Option<seq<bool>>, dt: DataType, n: nat, lens: seq<nat>)
    requires Cuttable(values, bits, dt, n) && Sum(lens) <= n
    ensures Sum(lens) * dt.SizeOf() <= |values|
    ensures JoinValues(Split(values, bits, dt, n, lens)) == values[..Sum(lens) * dt.SizeOf()]
    ensures JoinBits(Split(values, bits, dt, n, lens), dt) == AllBits(bits, n)[..Sum(lens)]
  {
    hide AllBits, Cut, Split, JoinValues, JoinBits, Shaped, ChunkBits, Sum, Lens, DataType.SizeOf;
    if lens == [] {
      SplitNone(values, bits, dt, n);
      SumNone();
    } else {
      var m := |lens| - 1;
      SplitMore(values, bits, dt, n, lens);
      var lo, k := Sum(lens[..m]), lens[m];
      SplitJoins(values, bits, dt, n, lens[..m]);
      CutBits(values, bits, dt, n, lo, k);
      JoinMore(Split(values, bits, dt, n, lens[..m]), Cut(values, bits, dt, lo, k), dt);
      SliceJoin(values, 0, lo * dt.SizeOf(), (lo + k) * dt.SizeOf());
      SliceJoin(AllBits(bits, n), 0, lo, lo + k);
    }
  }

  lemma SplitNone(values: seq<byte>, bits: Option<seq<bool>>, dt: DataType, n: nat)
    requires Cuttable(values, bits, dt, n)
    ensures Split(values, bits, dt, n, []) == [] && JoinValues([]) == [] && JoinBits([], dt) == []
  {
  }

  lemma SplitMore(values: seq<byte>, bits: Option<seq<bool>>, dt: DataType, n: nat, lens: seq<nat>)
    requires Cuttable(values, bits, dt, n) && Sum(lens) <= n && lens != []
    ensures var m := |lens| - 1;
            && Sum(lens[..m]) <= n && Sum(lens) == Sum(lens[..m]) + lens[m]
            && Sum(lens) * dt.SizeOf() <= |values|
            && Split(values, bits, dt, n, lens)
            == Split(values, bits, dt, n, lens[..m]) + [Cut(values, bits, dt, Sum(lens[..m]), lens[m])]
  {
    hide Cut, Shaped, DataType.SizeOf;
    MulSum(Sum(lens), n - Sum(lens), dt.SizeOf());
  }

  // ----- bytes

  ghost function ChunkBytes(enc: Encoding, codec: Compressor, dt: DataType, c: ChunkData): seq<byte>
    requires Shaped(c, dt)
  {
    EncodedChunk(enc, codec, dt, c.values, c.validity, c.rows).value
  }

  ghost function StreamBytes(enc: Encoding, codec: Compressor, dt: DataType, cs: seq<ChunkData>): seq<byte>
    requires AllShaped(cs, dt)
  {
    if cs == [] then [] else
      StreamBytes(enc, codec, dt, cs[..|cs| - 1]) + ChunkBytes(enc, codec, dt, cs[|cs| - 1])
  }

  lemma {:induction false} StreamFront(enc: Encoding, codec: Compressor, dt: DataType, cs: seq<ChunkData>)
    requires AllShaped(cs, dt) && cs != []
    ensures StreamBytes(enc, codec, dt, cs) == ChunkBytes(enc, codec, dt, cs[0]) + StreamBytes(enc, codec, dt, cs[1..])
  {
    hide ChunkBytes;
    var m := |cs| - 1;
    if m > 0 {
      StreamFront(enc, codec, dt, cs[..m]);
      assert cs[..m][1..] == cs[1..][..m - 1];
    }
  }

  function DecodedStream(enc: Encoding, codec: Compressor, dt: DataType, body: seq<byte>): Result<seq<ChunkData>>
    decreases |body|
  {
    if body == [] then Ok([]) else
      var h :- HeaderFrom(body);
      var len := HEADER_SIZE + h.payloadLen;
      if |body| < len then Err(InvalidState) else
        var c :- DecodedChunk(enc, codec, dt, body[..len]);
        var rest :- DecodedStream(enc, codec, dt, body[len..]);
        Ok([c] + rest)
  }

  lemma {:induction false} DecodedShaped(enc: Encoding, codec: Compressor, dt: DataType, body: seq<byte>)
    requires DecodedStream(enc, codec, dt, body).Ok?
    ensures AllShaped(DecodedStream(enc, codec, dt, body).value, dt)
    decreases |body|
  {
    hide DecodedChunk, HeaderFrom, Shaped;
    if body != [] {
      var len := HEADER_SIZE + HeaderFrom(body).value.payloadLen;
      DecodedShape(enc, codec, dt, body[..len]);
      DecodedShaped(enc, codec, dt, body[len..]);
    }
  }

  /** Every chunk holds rows and fits its header. */
  ghost predicate Storable(enc: Encoding, codec: Compressor, dt: DataType, cs: seq<ChunkData>) {
    forall i :: 0 <= i < |cs| ==>
      cs[i].rows > 0 && ChunkFits(enc, codec, dt, cs[i].values, cs[i].validity, cs[i].rows)
  }

  lemma StorableShaped(enc: Encoding, codec: Compressor, dt: DataType, cs: seq<ChunkData>)
    requires Storable(enc, codec, dt, cs)
    ensures AllShaped(cs, dt)
  {
    hide EncodedValues;
    forall i | 0 <= i < |cs|
      ensures Shaped(cs[i], dt)
    {
      assert ChunkFits(enc, codec, dt, cs[i].values, cs[i].validity, cs[i].rows);
    }
  }

  lemma DecodedFront(enc: Encoding, codec: Compressor, dt: DataType, c: ChunkData, rest: seq<byte>, tail: seq<ChunkData>)
    requires Lossless(codec) && c.rows > 0 && ChunkFits(enc, codec, dt, c.values, c.validity, c.rows) && Shaped(c, dt)
    requires DecodedStream(enc, codec, dt, rest) == Ok(tail)
    ensures DecodedStream(enc, codec, dt, ChunkBytes(enc, codec, dt, c) + rest) == Ok([c] + tail)
  {
    hide EncodedChunk, DecodedChunk, HeaderFrom, Lossless, ChunkFits, Shaped;
    var b := ChunkBytes(enc, codec, dt, c);
    ChunkPrefix(enc, codec, dt, c.values, c.validity, c.rows, rest);
    RoundTrip(enc, codec, dt, c.values, c.validity, c.rows);
    assert (b + rest)[..|b|] == b && (b + rest)[|b|..] == rest;
  }

  lemma StreamNone(enc: Encoding, codec: Compressor, dt: DataType)
    ensures StreamBytes(enc, codec, dt, []) == [] && DecodedStream(enc, codec, dt, []) == Ok([])
  {
  }

  /** Reading a written stream gives the chunks back. */
  lemma {:induction false} StreamRoundTrip(enc: Encoding, codec: Compressor, dt: DataType, cs: seq<ChunkData>)
    requires Lossless(codec) && Storable(enc, codec, dt, cs)
    ensures AllShaped(cs, dt)
    ensures DecodedStream(enc, codec, dt, StreamBytes(enc, codec, dt, cs)) == Ok(cs)
  {
    hide ChunkBytes, Lossless, ChunkFits, Shaped, DecodedStream, StreamBytes;
    StorableShaped(enc, codec, dt, cs);
    if cs == [] {
      StreamNone(enc, codec, dt);
    } else {
      assert ChunkFits(enc, codec, dt, cs[0].values, cs[0].validity, cs[0].rows);
      StreamFront(enc, codec, dt, cs);
      StreamRoundTrip(enc, codec, dt, cs[1..]);
      DecodedFront(enc, codec, dt, cs[0], StreamBytes(enc, codec, dt, cs[1..]), cs[1..]);
      assert [cs[0]] + cs[1..] == cs;
    }
  }

  // ----- writing and reading a stream

  /** The rows of a column as chunks of the given lengths, each encoded on its own. */
  method EncodeRows(enc: Encoding, codec: Compressor, dt: DataType, values: seq<byte>, raw: Option<seq<byte>>,
                    rows: nat, lens: seq<nat>) returns (body: seq<byte>)
    requires |values| == rows * dt.SizeOf() && (raw.Some? ==> rows <= 8 * |raw.value|) && Sum(lens) <= rows
    ensures body == StreamBytes(enc, codec, dt, Split(values, RawBits(raw, rows), dt, rows, lens))
  {
    hide ChunkBytes, StreamBytes, Split, Sum, Cut, Shaped, RawBits, DataType.SizeOf;
    ghost var bits := RawBits(raw, rows);
    StreamNone(enc, codec, dt);
    SplitNone(values, bits, dt, rows);
    SumNone();
    body := [];
    var lo := 0;
    assert lens[..0] == [];
    for i := 0 to |lens|
      invariant 0 <= lo && lo == Sum(lens[..i]) <= rows
      invariant body == StreamBytes(enc, codec, dt, Split(values, bits, dt, rows, lens[..i]))
    {
      var n := lens[i];
      SumStep(lens, i);
      assert lens[..i + 1][..i] == lens[..i];
      SplitMore(values, bits, dt, rows, lens[..i + 1]);
      StreamMore(enc, codec, dt, Split(values, bits, dt, rows, lens[..i]), Cut(values, bits, dt, lo, n));
      var chunk := EncodeCut(enc, codec, dt, values, raw, rows, lo, n);
      body := body + chunk;
      lo := lo + n;
    }
    assert lens[..|lens|] == lens;
  }

  /** Rows `[lo, lo + n)` encoded: a slice of the values, and the bits repacked from bit 0. */
  method EncodeCut(enc: Encoding, codec: Compressor, dt: DataType, values: seq<byte>, raw: Option<seq<byte>>,
                   rows: nat, lo: nat, n: nat) returns (chunk: seq<byte>)
    requires |values| == rows * dt.SizeOf() && (raw.Some? ==> rows <= 8 * |raw.value|) && lo + n <= rows
    ensures (lo + n) * dt.SizeOf() <= |values|
    ensures chunk == ChunkBytes(enc, codec, dt, Cut(values, RawBits(raw, rows), dt, lo, n))
  {
    hide EncodedChunk, Pack, BitsOf, DataType.SizeOf;
    var s := dt.SizeOf();
    MulSum(lo, n, s);
    MulSum(lo + n, rows - (lo + n), s);
    var packed := None;
    if raw.Some? {
      var p := PackedBytes(raw.value, lo, n);
      packed := Some(p);
      BitsOfPart(raw.value, rows, lo, n);
    }
    var r := EncodeChunk(enc, codec, dt, values[lo * s..(lo + n) * s], packed, n);
    EncodesShaped(enc, codec, dt, Cut(values, RawBits(raw, rows), dt, lo, n));
    return if r.Ok? then r.value else [];
  }

  function RawBits(raw: Option<seq<byte>>, rows: nat): (r: Option<seq<bool>>)
    requires raw.Some? ==> rows <= 8 * |raw.value|
    ensures r.Some? == raw.Some? && (r.Some? ==> |r.value| == rows)
  {
    if raw.Some? then Some(BitsOf(raw.value, 0, rows)) else None
  }

  lemma BitsOfPart(raw: seq<byte>, rows: nat, lo: nat, n: nat)
    requires rows <= 8 * |raw| && lo + n <= rows
    ensures BitsOf(raw, 0, rows)[lo..lo + n] == BitsOf(raw, lo, n)
  {
  }

  lemma SumNone()
    ensures Sum([]) == 0
  {
  }

  lemma EncodesShaped(enc: Encoding, codec: Compressor, dt: DataType, c: ChunkData)
    requires Shaped(c, dt)
    ensures EncodedChunk(enc, codec, dt, c.values, c.validity, c.rows).Ok?
  {
  }

  lemma StreamMore(enc: Encoding, codec: Compressor, dt: DataType, cs: seq<ChunkData>, c: ChunkData)
    requires AllShaped(cs, dt) && Shaped(c, dt)
    ensures AllShaped(cs + [c], dt)
    ensures StreamBytes(enc, codec, dt, cs + [c]) == StreamBytes(enc, codec, dt, cs) + ChunkBytes(enc, codec, dt, c)
  {
    assert (cs + [c])[..|cs|] == cs;
  }

  /** Reading chunk by chunk: what is done plus what is left is the whole stream. */
  ghost predicate ReadSoFar(enc: Encoding, codec: Compressor, dt: DataType, body: seq<byte>, done: seq<ChunkData>, pos: nat) {
    && pos <= |body|
    && AllShaped(done, dt)
    && var all, rest := DecodedStream(enc, codec, dt, body), DecodedStream(enc, codec, dt, body[pos..]);
       (all.Ok? <==> rest.Ok?) && (all.Ok? ==> all.value == done + rest.value)
  }

  lemma ReadNone(enc: Encoding, codec: Compressor, dt: DataType, body: seq<byte>)
    ensures ReadSoFar(enc, codec, dt, body, [], 0)
  {
    assert body[0..] == body;
  }

  lemma ReadMore(enc: Encoding, codec: Compressor, dt: DataType, body: seq<byte>, done: seq<ChunkData>, pos: nat, len: nat)
    requires ReadSoFar(enc, codec, dt, body, done, pos) && pos < |body|
    requires HeaderFrom(body[pos..]).Ok? && len == HEADER_SIZE + HeaderFrom(body[pos..]).value.payloadLen
    requires pos + len <= |body| && DecodedChunk(enc, codec, dt, body[pos..pos + len]).Ok?
    ensures ReadSoFar(enc, codec, dt, body, done + [DecodedChunk(enc, codec, dt, body[pos..pos + len]).value], pos + len)
    ensures Shaped(DecodedChunk(enc, codec, dt, body[pos..pos + len]).value, dt)
  {
    hide DecodedChunk, HeaderFrom, Shaped;
    DecodedShape(enc, codec, dt, body[pos..pos + len]);
    assert body[pos..][..len] == body[pos..pos + len] && body[pos..][len..] == body[pos + len..];
  }

  lemma ReadStuck(enc: Encoding, codec: Compressor, dt: DataType, body: seq<byte>, done: seq<ChunkData>, pos: nat)
    requires ReadSoFar(enc, codec, dt, body, done, pos) && pos < |body|
    requires HeaderFrom(body[pos..]).Ok? ==>
      var len := HEADER_SIZE + HeaderFrom(body[pos..]).value.payloadLen;
      pos + len <= |body| ==> DecodedChunk(enc, codec, dt, body[pos..pos + len]).Err?
    ensures DecodedStream(enc, codec, dt, body).Err?
  {
    hide DecodedChunk, HeaderFrom, Shaped;
    var h := HeaderFrom(body[pos..]);
    if h.Ok? {
      var len := HEADER_SIZE + h.value.payloadLen;
      if pos + len <= |body| { assert body[pos..][..len] == body[pos..pos + len]; }
    }
  }

  lemma ReadAll(enc: Encoding, codec: Compressor, dt: DataType, body: seq<byte>, done: seq<ChunkData>)
    requires ReadSoFar(enc, codec, dt, body, done, |body|)
    ensures DecodedStream(enc, codec, dt, body) == Ok(done)
  {
    assert body[|body|..] == [];
    assert done + [] == done;
  }

  /** More rows than the header announces. */
  lemma ReadTooMany(enc: Encoding, codec: Compressor, dt: DataType, body: seq<byte>, done: seq<ChunkData>, pos: nat, rows: nat)
    requires ReadSoFar(enc, codec, dt, body, done, pos) && Sum(Lens(done)) > rows
    ensures DecodedStream(enc, codec, dt, body).Ok? ==> Sum(Lens(DecodedStream(enc, codec, dt, body).value)) > rows
  {
    hide DecodedStream, Sum, Shaped;
    var all := DecodedStream(enc, codec, dt, body);
    if all.Ok? {
      assert Lens(all.value)[..|done|] == Lens(done);
      SumPrefix(Lens(all.value), |done|);
    }
  }

  /** A stream that decodes to exactly `rows` rows. */
  ghost predicate Readable(enc: Encoding, codec: Compressor, dt: DataType, rows: nat, body: seq<byte>) {
    DecodedStream(enc, codec, dt, body).Ok? && Sum(Lens(DecodedStream(enc, codec, dt, body).value)) == rows
  }

  /** The chunk at `pos`, and where the next one starts. */
  method ReadChunk(enc: Encoding, codec: Compressor, dt: DataType, body: seq<byte>, ghost done: seq<ChunkData>, pos: nat)
    returns (c: Option<ChunkData>, next: nat)
    requires ReadSoFar(enc, codec, dt, body, done, pos) && pos < |body|
    ensures c.None? ==> DecodedStream(enc, codec, dt, body).Err?
    ensures c.Some? ==> Shaped(c.value, dt) && pos < next <= |body|
    ensures c.Some? ==> ReadSoFar(enc, codec, dt, body, done + [c.value], next)
  {
    hide DecodedStream, DecodedChunk, HeaderFrom, ReadSoFar;
    next := pos;
    var h := HeaderFrom(body[pos..]);
    if h.Err? {
      ReadStuck(enc, codec, dt, body, done, pos);
      return None, next;
    }
    next := pos + HEADER_SIZE + h.value.payloadLen;
    if next > |body| {
      ReadStuck(enc, codec, dt, body, done, pos);
      return None, next;
    }
    var d := DecodeChunk(enc, codec, dt, body[pos..next]);
    if d.Err? {
      ReadStuck(enc, codec, dt, body, done, pos);
      return None, next;
    }
    ReadMore(enc, codec, dt, body, done, pos, next - pos);
    return Some(d.value), next;
  }

  /** Fills a zeroed column chunk by chunk. */
  method DecodeRows(enc: Encoding, codec: Compressor, dt: DataType, rows: nat, body: seq<byte>)
    returns (ok: bool, values: array<byte>, bits: array<byte>, lens: seq<nat>)
    ensures fresh(values) && fresh(bits) && values != bits
    ensures ok <==> Readable(enc, codec, dt, rows, body)
    ensures values.Length == rows * dt.SizeOf() && bits.Length == ValiditySize(rows)
    ensures ok ==> var cs := DecodedStream(enc, codec, dt, body).value;
                   && rows <= 8 * bits.Length
                   && AllShaped(cs, dt) && lens == Lens(cs)
                   && values[..] == JoinValues(cs) && BitsOf(bits[..], 0, rows) == JoinBits(cs, dt)
  {
    hide DecodedStream, ReadSoFar, Sum, JoinValues, JoinBits, Filled, ValiditySize, Shaped;
    var s := dt.SizeOf();
    values := new byte[rows * s](_ => 0);
    bits := new byte[ValiditySize(rows)](_ => 0);
    lens := [];
    var pos, decoded := 0, 0;
    ghost var done: seq<ChunkData> := [];
    ReadNone(enc, codec, dt, body);
    FilledNone(values[..], bits[..], dt, rows);
    while pos < |body|
      invariant 0 <= pos <= |body| && 0 <= decoded && ReadSoFar(enc, codec, dt, body, done, pos)
      invariant fresh(values) && fresh(bits) && values != bits
      invariant values.Length == rows * s && bits.Length == ValiditySize(rows)
      invariant Filled(values[..], bits[..], dt, rows, done, decoded) && lens == Lens(done)
      decreases |body| - pos
    {
      var c, next := ReadChunk(enc, codec, dt, body, done, pos);
      if c.None? { return false, values, bits, lens; }
      FilledSum(values[..], bits[..], dt, rows, done, decoded, c.value);
      if decoded + c.value.rows > rows {
        ReadTooMany(enc, codec, dt, body, done + [c.value], next, rows);
        return false, values, bits, lens;
      }
      PlaceChunk(values, bits, dt, rows, done, decoded, c.value);
      assert Lens(done + [c.value]) == Lens(done) + [c.value.rows];
      done := done + [c.value];
      lens := lens + [c.value.rows];
      pos := next;
      decoded := decoded + c.value.rows;
    }
    ReadAll(enc, codec, dt, body, done);
    FilledAll(values[..], bits[..], dt, rows, done, decoded);
    return decoded == rows, values, bits, lens;
  }

  /** The first `decoded` rows hold the chunks read so far. */
  ghost predicate Filled(values: seq<byte>, bits: seq<byte>, dt: DataType, rows: nat, done: seq<ChunkData>, decoded: nat) {
    && AllShaped(done, dt) && decoded == Sum(Lens(done)) <= rows
    && |values| == rows * dt.SizeOf() && |bits| == ValiditySize(rows)
    && decoded * dt.SizeOf() <= |values|
    && values[..decoded * dt.SizeOf()] == JoinValues(done)
    && BitsOf(bits, 0, decoded) == JoinBits(done, dt)
  }

  lemma FilledNone(values: seq<byte>, bits: seq<byte>, dt: DataType, rows: nat)
    requires |values| == rows * dt.SizeOf() && |bits| == ValiditySize(rows)
    ensures Filled(values, bits, dt, rows, [], 0)
  {
  }

  lemma FilledSum(values: seq<byte>, bits: seq<byte>, dt: DataType, rows: nat, done: seq<ChunkData>, decoded: nat, c: ChunkData)
    requires Filled(values, bits, dt, rows, done, decoded) && Shaped(c, dt)
    ensures Sum(Lens(done + [c])) == decoded + c.rows
  {
    JoinMore(done, c, dt);
  }

  lemma FilledAll(values: seq<byte>, bits: seq<byte>, dt: DataType, rows: nat, done: seq<ChunkData>, decoded: nat)
    requires Filled(values, bits, dt, rows, done, decoded)
    ensures AllShaped(done, dt) && decoded == Sum(Lens(done)) && rows <= 8 * |bits|
    ensures decoded == rows ==> values == JoinValues(done) && BitsOf(bits, 0, rows) == JoinBits(done, dt)
  {
  }

  method PlaceChunk(values: array<byte>, bits: array<byte>, dt: DataType, rows: nat, ghost done: seq<ChunkData>,
                    decoded: nat, c: ChunkData)
    requires values != bits && Filled(values[..], bits[..], dt, rows, done, decoded)
    requires Shaped(c, dt) && decoded + c.rows <= rows
    modifies values, bits
    ensures Filled(values[..], bits[..], dt, rows, done + [c], decoded + c.rows)
  {
    hide Sum, JoinValues, JoinBits, Overwritten, ValiditySize;
    var s := dt.SizeOf();
    ghost var v0, b0 := values[..], bits[..];
    BitsRoom(bits.Length, rows);
    MulSum(decoded, c.rows, s);
    MulSum(decoded + c.rows, rows - (decoded + c.rows), s);
    CopyInto(values, decoded * s, c.values);
    if c.validity.Some? {
      BitsRoom(|c.validity.value|, c.rows);
      var was, now := CopyBits(bits, decoded, c.validity.value, 0, c.rows);
    } else {
      var was := FillBits(bits, decoded, c.rows, true);
    }
    PlacedBits(b0, bits[..], decoded, ChunkBits(c));
    SplicePrefix(v0, decoded * s, c.values);
    JoinMore(done, c, dt);
  }

  lemma BitsRoom(len: nat, rows: nat)
    requires len == ValiditySize(rows)
    ensures rows <= 8 * len
  {
  }

  lemma PlacedBits(old_: seq<byte>, cur: seq<byte>, at: nat, bits: seq<bool>)
    requires Overwritten(old_, cur, at, bits, |bits|)
    ensures BitsOf(cur, 0, at + |bits|) == BitsOf(old_, 0, at) + bits
  {
    var a, b := BitsOf(cur, 0, at + |bits|), BitsOf(old_, 0, at) + bits;
    forall i: nat | i < at + |bits|
      ensures a[i] == b[i]
    {
      assert a[i] == BitAt(cur, i);
    }
  }

  lemma SplicePrefix<T>(q: seq<T>, at: nat, x: seq<T>)
    requires at + |x| <= |q|
    ensures Splice(q, at, x)[..at + |x|] == q[..at] + x
  {
  }

  /** A contiguous copy over part of a buffer. */
  method CopyInto(dst: array<byte>, at: nat, src: seq<byte>)
    requires at + |src| <= dst.Length
    modifies dst
    ensures dst[..] == Splice(old(dst[..]), at, src)
  {
    forall i | 0 <= i < |src| { dst[at + i] := src[i]; }
  }
}
