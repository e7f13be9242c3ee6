/** A chunk: a 12-byte plain header, then the compressed concatenation of the
    encoded values and the validity bits. */
module Chunk {
  import opened Bits
  import opened Cells
  import opened Formats
  import Bitpack
  import Delta
  import Rle

  /** A compression backend; the library's own algorithm is not part of the model. */
  datatype Compressor = Compressor(pack: seq<byte> -> seq<byte>, unpack: seq<byte> -> Result<seq<byte>>)

  ghost predicate Lossless(c: Compressor) {
    forall x :: c.unpack(c.pack(x)) == Ok(x)
  }

  function ValiditySize(rows: nat): nat { (rows + 7) / 8 }

  // ----- values

  function EncodedValues(enc: Encoding, dt: DataType, values: seq<byte>, rows: nat): Result<seq<byte>> {
    if |values| != rows * dt.SizeOf() then Err(RowCountMismatch)
    else match enc
      case Plain => Ok(values)
      case Delta => Ok(Delta.Encoded(dt, values, rows))
      case Rle => Ok(Rle.Encoded(dt, values, rows))
      case Bitpack => Ok(Bitpack.Encoded(dt, values, rows))
  }

  function DecodedValues(enc: Encoding, dt: DataType, payload: seq<byte>, rows: nat): Result<seq<byte>> {
    match enc
    case Plain => if |payload| != rows * dt.SizeOf() then Err(RowCountMismatch) else Ok(payload)
    case Delta => Delta.Decoded(dt, payload, rows)
    case Rle => Rle.Decoded(dt, payload, rows)
    case Bitpack => Bitpack.Decoded(dt, payload, rows)
  }

  lemma ValuesRoundTrip(enc: Encoding, dt: DataType, values: seq<byte>, rows: nat)
    requires |values| == rows * dt.SizeOf() && rows < TWO_32
    ensures EncodedValues(enc, dt, values, rows).Ok?
    ensures DecodedValues(enc, dt, EncodedValues(enc, dt, values, rows).value, rows) == Ok(values)
  {
    match enc
    case Plain =>
    case Delta => Delta.RoundTrip(dt, values, rows);
    case Rle => Rle.RoundTrip(dt, values, rows);
    case Bitpack => Bitpack.RoundTrip(dt, values, rows);
  }

  // ----- the header

  const HEADER_SIZE := 12

  /** Three `u32` fields; larger values are cut, as an `as u32` cast does. */
  datatype ChunkHeader = ChunkHeader(rows: nat, valuesLen: nat, payloadLen: nat) {
    function ToBytes(): (b: seq<byte>)
      ensures |b| == HEADER_SIZE
    {
      ToLe(rows, 4) + ToLe(valuesLen, 4) + ToLe(payloadLen, 4)
    }
  }

  function HeaderFrom(b: seq<byte>): Result<ChunkHeader> {
    if |b| < HEADER_SIZE then Err(Truncated)
    else Ok(ChunkHeader(FromLe(b[0..4]), FromLe(b[4..8]), FromLe(b[8..12])))
  }

  lemma HeaderRoundTrip(h: ChunkHeader, rest: seq<byte>)
    requires h.rows < TWO_32 && h.valuesLen < TWO_32 && h.payloadLen < TWO_32
    ensures HeaderFrom(h.ToBytes() + rest) == Ok(h)
  {
    hide ToLe, FromLe;
    var b := h.ToBytes() + rest;
    assert b[0..4] == ToLe(h.rows, 4) && b[4..8] == ToLe(h.valuesLen, 4) && b[8..12] == ToLe(h.payloadLen, 4);
    Rle.U32RoundTrip(h.rows);
    Rle.U32RoundTrip(h.valuesLen);
    Rle.U32RoundTrip(h.payloadLen);
  }

  /** Where the fields stand: the row count in the first four bytes, then the length of the
      encoded values, then that of the payload. */
  lemma HeaderLayout(h: ChunkHeader)
    requires h.rows < TWO_32 && h.valuesLen < TWO_32 && h.payloadLen < TWO_32
    ensures FromLe(h.ToBytes()[..4]) == h.rows
    ensures FromLe(h.ToBytes()[4..8]) == h.valuesLen
    ensures FromLe(h.ToBytes()[8..]) == h.payloadLen
  {
    hide ToLe, FromLe;
    assert h.ToBytes()[..4] == ToLe(h.rows, 4) && h.ToBytes()[4..8] == ToLe(h.valuesLen, 4);
    assert h.ToBytes()[8..] == ToLe(h.payloadLen, 4);
    Rle.U32RoundTrip(h.rows);
    Rle.U32RoundTrip(h.valuesLen);
    Rle.U32RoundTrip(h.payloadLen);
  }

  // ----- whole chunks

  function RawOf(encoded: seq<byte>, validity: Option<seq<byte>>): seq<byte> {
    encoded + (if validity.Some? then validity.value else [])
  }

  function EncodedChunk(enc: Encoding, comp: Compressor, dt: DataType, values: seq<byte>,
                        validity: Option<seq<byte>>, rows: nat): Result<seq<byte>>
  {
    if |values| != rows * dt.SizeOf() then Err(RowCountMismatch)
    else if validity.Some? && |validity.value| != ValiditySize(rows) then Err(Corrupt)
    else
      var encoded :- EncodedValues(enc, dt, values, rows);
      var payload := comp.pack(RawOf(encoded, validity));
      Ok(ChunkHeader(rows, |encoded|, |payload|).ToBytes() + payload)
  }

  /** A whole chunk: the header's fields count its rows, the encoded values and the rest of the
      chunk, which unpacks to the encoded values followed by the validity bytes. */
  lemma ChunkLayout(enc: Encoding, comp: Compressor, dt: DataType, values: seq<byte>, validity: Option<seq<byte>>, rows: nat)
    requires Lossless(comp) && ChunkFits(enc, comp, dt, values, validity, rows)
    ensures EncodedValues(enc, dt, values, rows).Ok? && EncodedChunk(enc, comp, dt, values, validity, rows).Ok?
    ensures var encoded := EncodedValues(enc, dt, values, rows).value;
            var c := EncodedChunk(enc, comp, dt, values, validity, rows).value;
            && |c| >= 12 && FromLe(c[..4]) == rows && FromLe(c[4..8]) == |encoded| && FromLe(c[8..12]) == |c| - 12
            && comp.unpack(c[12..]) == Ok(encoded + (if validity.Some? then validity.value else []))
  {
    hide ToLe, FromLe;
    ValuesRoundTrip(enc, dt, values, rows);
    var encoded := EncodedValues(enc, dt, values, rows).value;
    var payload := comp.pack(RawOf(encoded, validity));
    var h := ChunkHeader(rows, |encoded|, |payload|);
    HeaderLayout(h);
    var c := h.ToBytes() + payload;
    assert c[..4] == h.ToBytes()[..4] && c[4..8] == h.ToBytes()[4..8] && c[8..12] == h.ToBytes()[8..] && c[12..] == payload;
    assert comp.unpack(comp.pack(RawOf(encoded, validity))) == Ok(RawOf(encoded, validity));
  }

  datatype ChunkData = ChunkData(values: seq<byte>, validity: Option<seq<byte>>, rows: nat)

  function DecodedChunk(enc: Encoding, comp: Compressor, dt: DataType, chunk: seq<byte>): Result<ChunkData> {
    var h :- HeaderFrom(chunk);
    if |chunk| < HEADER_SIZE + h.payloadLen then Err(Truncated)
    else
      var raw :- comp.unpack(chunk[HEADER_SIZE..HEADER_SIZE + h.payloadLen]);
      if |raw| < h.valuesLen then Err(Corrupt)
      else
        var values :- DecodedValues(enc, dt, raw[..h.valuesLen], h.rows);
        var bitsLen := |raw| - h.valuesLen;
        if bitsLen == 0 then Ok(ChunkData(values, None, h.rows))
        else if bitsLen == ValiditySize(h.rows) then Ok(ChunkData(values, Some(raw[h.valuesLen..]), h.rows))
        else Err(Corrupt)
  }

  /** The lengths a chunk header can hold. */
  ghost predicate ChunkFits(enc: Encoding, comp: Compressor, dt: DataType, values: seq<byte>,
                            validity: Option<seq<byte>>, rows: nat)
  {
    && rows < TWO_32
    && |values| == rows * dt.SizeOf()
    && (validity.Some? ==> |validity.value| == ValiditySize(rows))
    && var encoded := EncodedValues(enc, dt, values, rows).value;
       |encoded| < TWO_32 && |comp.pack(RawOf(encoded, validity))| < TWO_32
  }

  /** A chunk gives back its values, rows and validity, under every encoding and
      lossless backend. An empty validity part (`rows == 0`) comes back as absent. */
  lemma RoundTrip(enc: Encoding, comp: Compressor, dt: DataType, values: seq<byte>, validity: Option<seq<byte>>, rows: nat)
    requires Lossless(comp) && ChunkFits(enc, comp, dt, values, validity, rows)
    ensures EncodedChunk(enc, comp, dt, values, validity, rows).Ok?
    ensures DecodedChunk(enc, comp, dt, EncodedChunk(enc, comp, dt, values, validity, rows).value)
         == Ok(ChunkData(values, if rows == 0 then None else validity, rows))
  {
    hide EncodedValues, DecodedValues, HeaderFrom;
    ValuesRoundTrip(enc, dt, values, rows);
    var encoded := EncodedValues(enc, dt, values, rows).value;
    var raw := RawOf(encoded, validity);
    var payload := comp.pack(raw);
    var h := ChunkHeader(rows, |encoded|, |payload|);
    HeaderRoundTrip(h, payload);
    var chunk := h.ToBytes() + payload;
    assert chunk[HEADER_SIZE..HEADER_SIZE + |payload|] == payload;
    assert raw[..|encoded|] == encoded;
    if validity.Some? { assert raw[|encoded|..] == validity.value; }
  }

  /** The first bytes of a chunk tell how long it is, whatever follows it. */
  lemma ChunkPrefix(enc: Encoding, comp: Compressor, dt: DataType, values: seq<byte>, validity: Option<seq<byte>>,
                    rows: nat, rest: seq<byte>)
    requires ChunkFits(enc, comp, dt, values, validity, rows)
    ensures EncodedChunk(enc, comp, dt, values, validity, rows).Ok?
    ensures var c := EncodedChunk(enc, comp, dt, values, validity, rows).value;
            && |c| >= HEADER_SIZE
            && HeaderFrom(c + rest).Ok?
            && HeaderFrom(c + rest).value.rows == rows
            && HEADER_SIZE + HeaderFrom(c + rest).value.payloadLen == |c|
  {
    hide EncodedValues, HeaderFrom;
    ValuesRoundTrip(enc, dt, values, rows);
    var encoded := EncodedValues(enc, dt, values, rows).value;
    var payload := comp.pack(RawOf(encoded, validity));
    var h := ChunkHeader(rows, |encoded|, |payload|);
    assert h.ToBytes() + payload + rest == h.ToBytes() + (payload + rest);
    HeaderRoundTrip(h, payload + rest);
  }

  /** Whatever decodes has the row count's width, under every encoding. */
  lemma DecodedValuesSize(enc: Encoding, dt: DataType, payload: seq<byte>, rows: nat)
    requires DecodedValues(enc, dt, payload, rows).Ok?
    ensures |DecodedValues(enc, dt, payload, rows).value| == rows * dt.SizeOf()
  {
    match enc
    case Plain =>
    case Delta => JoinLength(Delta.DecodedCells(payload, dt.SizeOf(), rows), dt.SizeOf());
    case Rle =>
      Rle.DecodedCount(payload, dt.SizeOf(), 0, rows);
      JoinLength(Rle.DecodedFrom(payload, dt.SizeOf(), 0, rows).value, dt.SizeOf());
    case Bitpack =>
      var w := payload[0];
      JoinLength(Bitpack.DecodedCells(dt, payload[1..], w, rows), dt.SizeOf());
  }

  predicate Shaped(c: ChunkData, dt: DataType) {
    |c.values| == c.rows * dt.SizeOf() && (c.validity.Some? ==> |c.validity.value| == ValiditySize(c.rows))
  }

  lemma DecodedShape(enc: Encoding, comp: Compressor, dt: DataType, chunk: seq<byte>)
    requires DecodedChunk(enc, comp, dt, chunk).Ok?
    ensures Shaped(DecodedChunk(enc, comp, dt, chunk).value, dt)
    ensures HeaderFrom(chunk).Ok? && DecodedChunk(enc, comp, dt, chunk).value.rows == HeaderFrom(chunk).value.rows
  {
    hide HeaderFrom, DecodedValues;
    var h := HeaderFrom(chunk).value;
    var raw := comp.unpack(chunk[HEADER_SIZE..HEADER_SIZE + h.payloadLen]).value;
    DecodedValuesSize(enc, dt, raw[..h.valuesLen], h.rows);
  }

  // ----- the calls

  method EncodeValues(enc: Encoding, dt: DataType, values: seq<byte>, rows: nat) returns (r: Result<seq<byte>>)
    ensures r == EncodedValues(enc, dt, values, rows)
  {
    if |values| != rows * dt.SizeOf() { return Err(RowCountMismatch); }
    var out := values;
    match enc {
      case Plain =>
      case Delta => out := Delta.Encode(dt, values, rows);
      case Rle => out := Rle.Encode(dt, values, rows);
      case Bitpack => out := Bitpack.Encode(dt, values, rows);
    }
    return Ok(out);
  }

  method DecodeValues(enc: Encoding, dt: DataType, payload: seq<byte>, rows: nat) returns (r: Result<seq<byte>>)
    ensures r == DecodedValues(enc, dt, payload, rows)
  {
    match enc {
      case Plain => r := if |payload| != rows * dt.SizeOf() then Err(RowCountMismatch) else Ok(payload);
      case Delta => r := Delta.Decode(dt, payload, rows);
      case Rle => r := Rle.Decode(dt, payload, rows);
      case Bitpack => r := Bitpack.Decode(dt, payload, rows);
    }
  }

  method EncodeChunk(enc: Encoding, comp: Compressor, dt: DataType, values: seq<byte>,
                     validity: Option<seq<byte>>, rows: nat) returns (r: Result<seq<byte>>)
    ensures r == EncodedChunk(enc, comp, dt, values, validity, rows)
  {
    hide EncodedValues;
    if |values| != rows * dt.SizeOf() { return Err(RowCountMismatch); }
    if validity.Some? && |validity.value| != ValiditySize(rows) { return Err(Corrupt); }
    var encoded := EncodeValues(enc, dt, values, rows);
    if encoded.Err? { return Err(encoded.error); }
    var payload := comp.pack(RawOf(encoded.value, validity));
    return Ok(ChunkHeader(rows, |encoded.value|, |payload|).ToBytes() + payload);
  }

  method DecodeChunk(enc: Encoding, comp: Compressor, dt: DataType, chunk: seq<byte>) returns (r: Result<ChunkData>)
    ensures r == DecodedChunk(enc, comp, dt, chunk)
  {
    hide HeaderFrom, DecodedValues;
    var h :- HeaderFrom(chunk);
    if |chunk| < HEADER_SIZE + h.payloadLen { return Err(Truncated); }
    var raw :- comp.unpack(chunk[HEADER_SIZE..HEADER_SIZE + h.payloadLen]);
    if |raw| < h.valuesLen { return Err(Corrupt); }
    var decoded := DecodeValues(enc, dt, raw[..h.valuesLen], h.rows);
    if decoded.Err? { return Err(decoded.error); }
    var bitsLen := |raw| - h.valuesLen;
    if bitsLen == 0 { return Ok(ChunkData(decoded.value, None, h.rows)); }
    if bitsLen == ValiditySize(h.rows) { return Ok(ChunkData(decoded.value, Some(raw[h.valuesLen..]), h.rows)); }
    return Err(Corrupt);
  }
}
