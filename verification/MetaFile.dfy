/** The index file: a 64-byte header, the axis, the dictionary offsets, the strings
    and the symbol records, all little-endian; and its parser. */
module MetaFile {
  import opened Bits
  import opened Formats
  import opened Cells
  import opened Order
  import opened Meta
  import opened MetaBuild

  const HEADER_SIZE := 64
  const FORMAT_VERSION := 2
  const META_MAGIC: seq<byte> := [83, 80, 76, 65, 89, 77, 84, 65]

  datatype MetaHeader = MetaHeader(version: nat, timeType: nat, generation: nat, timeCount: nat, symCount: nat,
                                   rowCount: nat, symDictOffset: nat, symIndexOffset: nat, fileSize: nat)
  {
    function ToBytes(): (b: seq<byte>)
      ensures |b| == HEADER_SIZE
    {
      META_MAGIC + ToLe(version, 2) + ToLe(0, 2) + ToLe(timeType, 1) + ToLe(0, 3) + ToLe(generation, 8)
      + ToLe(timeCount, 4) + ToLe(symCount, 4) + ToLe(rowCount, 4) + ToLe(0, 4)
      + ToLe(symDictOffset, 8) + ToLe(symIndexOffset, 8) + ToLe(fileSize, 8)
    }

    predicate Fits() {
      && version < 65536 && timeType < 256 && generation < TWO_64
      && timeCount < TWO_32 && symCount < TWO_32 && rowCount < TWO_32
      && symDictOffset < TWO_64 && symIndexOffset < TWO_64 && fileSize < TWO_64
    }
  }

  function HeaderFrom(b: seq<byte>): Result<MetaHeader> {
    if |b| < HEADER_SIZE then Err(Invalid)
    else if b[0..8] != META_MAGIC then Err(Invalid)
    else
      var h := MetaHeader(FromLe(b[8..10]), FromLe(b[12..13]), FromLe(b[16..24]), FromLe(b[24..28]), FromLe(b[28..32]),
                          FromLe(b[32..36]), FromLe(b[40..48]), FromLe(b[48..56]), FromLe(b[56..64]));
      if h.version != FORMAT_VERSION || h.timeType > 1 then Err(Invalid) else Ok(h)
  }

  lemma LeRoundTrip(v: nat, n: nat)
    requires v < Pow2(8 * n)
    ensures FromLe(ToLe(v, n)) == v
  {
    FromToLe(v, n);
    ModUnique(v, Pow2(8 * n), 0, v);
  }

  lemma HeaderRoundTrip(h: MetaHeader, rest: seq<byte>)
    requires h.Fits() && h.version == FORMAT_VERSION && h.timeType <= 1
    ensures HeaderFrom(h.ToBytes() + rest) == Ok(h)
  {
    hide ToLe, FromLe, Pow2;
    var b := h.ToBytes() + rest;
    Pow2Values();
    HeaderSlices(h, rest);
    LeRoundTrip(h.version, 2);
    LeRoundTrip(h.timeType, 1);
    LeRoundTrip(h.generation, 8);
    LeRoundTrip(h.timeCount, 4);
    LeRoundTrip(h.symCount, 4);
    LeRoundTrip(h.rowCount, 4);
    LeRoundTrip(h.symDictOffset, 8);
    LeRoundTrip(h.symIndexOffset, 8);
    LeRoundTrip(h.fileSize, 8);
  }

  lemma HeaderSlices(h: MetaHeader, rest: seq<byte>)
    ensures var b := h.ToBytes() + rest;
            && b[0..8] == META_MAGIC && b[8..10] == ToLe(h.version, 2) && b[12..13] == ToLe(h.timeType, 1)
            && b[16..24] == ToLe(h.generation, 8) && b[24..28] == ToLe(h.timeCount, 4)
            && b[28..32] == ToLe(h.symCount, 4) && b[32..36] == ToLe(h.rowCount, 4)
            && b[40..48] == ToLe(h.symDictOffset, 8) && b[48..56] == ToLe(h.symIndexOffset, 8)
            && b[56..64] == ToLe(h.fileSize, 8)
  {
    hide ToLe, FromLe;
  }

  // ----- sections

  function AxisBytes(idx: Index): seq<byte> {
    Join(AxisCells(idx, |idx.axis|))
  }

  function AxisCells(idx: Index, n: nat): (r: seq<seq<byte>>)
    requires n <= |idx.axis|
    ensures |r| == n && forall i :: 0 <= i < n ==> r[i] == ToLe(idx.axis[i], idx.tt.SizeOf())
  {
    seq(n, i requires 0 <= i < n => ToLe(idx.axis[i], idx.tt.SizeOf()))
  }

  /** `n + 1` string boundaries. */
  function OffsetCells(names: seq<Str>, n: nat): (r: seq<seq<byte>>)
    requires n <= |names| + 1
    ensures |r| == n && forall i :: 0 <= i < n ==> r[i] == ToLe(|Join(names[..i])|, 8)
  {
    seq(n, i requires 0 <= i < n => ToLe(|Join(names[..i])|, 8))
  }

  function RecordBytes(rec: SymRecord): (r: seq<byte>)
    ensures |r| == 12
  {
    ToLe(rec.timeStart, 4) + ToLe(rec.timeCount, 4) + ToLe(rec.rowStart, 4)
  }

  function RecordCells(recs: seq<SymRecord>): (r: seq<seq<byte>>)
    ensures |r| == |recs| && forall i :: 0 <= i < |recs| ==> r[i] == RecordBytes(recs[i])
  {
    seq(|recs|, i requires 0 <= i < |recs| => RecordBytes(recs[i]))
  }

  function HeaderOf(idx: Index): MetaHeader {
    var dictOffset := HEADER_SIZE + |idx.axis| * idx.tt.SizeOf();
    var indexOffset := dictOffset + (|idx.names| + 1) * 8 + |Join(idx.names)|;
    MetaHeader(FORMAT_VERSION, if idx.tt.Date32? then 0 else 1, 1, |idx.axis|, |idx.recs|, idx.RowCount(),
               dictOffset, indexOffset, indexOffset + |idx.recs| * 12)
  }

  function Serialized(idx: Index): seq<byte> {
    HeaderOf(idx).ToBytes() + AxisBytes(idx) + Join(OffsetCells(idx.names, |idx.names| + 1)) + Join(idx.names)
    + Join(RecordCells(idx.recs))
  }

  // ----- parsing

  function RecordFrom(b: seq<byte>): SymRecord
    requires |b| == 12
  {
    SymRecord(FromLe(b[0..4]), FromLe(b[4..8]), FromLe(b[8..12]))
  }

  function ParseAxis(axis: seq<byte>, ts: nat, n: nat): (r: seq<nat>)
    requires |axis| == n * ts
    ensures |r| == n
  {
    seq(n, i requires 0 <= i < n =>
      CellFits(ts, i, n);
      FromLe(Cell(axis, ts, i)))
  }

  function ParseRecords(records: seq<byte>, n: nat): (r: seq<SymRecord>)
    requires |records| == n * 12
    ensures |r| == n
  {
    seq(n, i requires 0 <= i < n =>
      CellFits(12, i, n);
      RecordFrom(Cell(records, 12, i)))
  }

  function OffsetAt(offsets: seq<byte>, n: nat, i: nat): nat
    requires |offsets| == (n + 1) * 8 && i <= n
  {
    FromLe(Cell(offsets, 8, i))
  }

  predicate NameInside(offsets: seq<byte>, n: nat, text: seq<byte>, i: nat)
    requires |offsets| == (n + 1) * 8 && i < n
  {
    OffsetAt(offsets, n, i) <= OffsetAt(offsets, n, i + 1) <= |text|
  }

  function ParseNames(offsets: seq<byte>, n: nat, text: seq<byte>): (r: Result<seq<Str>>)
    requires |offsets| == (n + 1) * 8
  {
    if forall i :: 0 <= i < n ==> NameInside(offsets, n, text, i) then
      Ok(seq(n, i requires 0 <= i < n =>
        assert NameInside(offsets, n, text, i);
        text[OffsetAt(offsets, n, i)..OffsetAt(offsets, n, i + 1)]))
    else Err(InvalidState)
  }

  /** What every accessor of an opened file reads. A section that runs past the end of
      the file, where an accessor would fail, is an error of the whole. */
  function Parse(b: seq<byte>): Result<Index> {
    var h :- HeaderFrom(b);
    var tt := if h.timeType == 0 then TimeType.Date32 else TimeType.TimestampUs;
    var axisEnd := HEADER_SIZE + h.timeCount * tt.SizeOf();
    var strings := h.symDictOffset + (h.symCount + 1) * 8;
    var end := h.symIndexOffset + h.symCount * 12;
    if |b| != h.fileSize || axisEnd > |b| || strings > h.symIndexOffset || end > |b| then Err(InvalidState)
    else
      var names :- ParseNames(b[h.symDictOffset..strings], h.symCount, b[strings..h.symIndexOffset]);
      Ok(Index(tt, ParseAxis(b[HEADER_SIZE..axisEnd], tt.SizeOf(), h.timeCount), names,
               ParseRecords(b[h.symIndexOffset..end], h.symCount)))
  }

  // ----- the round trip

  /** The counts and sizes the header's fields can hold. */
  ghost predicate Fits(idx: Index) {
    && idx.Valid()
    && |idx.axis| < TWO_32 && |idx.recs| < TWO_32 && idx.RowCount() < TWO_32
    && HeaderOf(idx).fileSize < TWO_64
  }

  lemma {:induction false} JoinSlice(cells: seq<seq<byte>>, i: nat)
    requires i < |cells|
    ensures |Join(cells[..i])| <= |Join(cells[..i + 1])| <= |Join(cells)|
    ensures Join(cells)[|Join(cells[..i])|..|Join(cells[..i + 1])|] == cells[i]
  {
    var n := |cells| - 1;
    assert cells[..n + 1] == cells;
    if i < n {
      JoinSlice(cells[..n], i);
      assert cells[..n][..i] == cells[..i] && cells[..n][..i + 1] == cells[..i + 1];
    }
  }

  lemma {:induction false} RecordsBounded(idx: Index, j: nat)
    requires idx.Valid() && j < |idx.recs|
    ensures idx.recs[j].RowEnd() <= idx.RowCount()
  {
    if j < |idx.recs| - 1 { BlocksOrdered(idx, j, |idx.recs| - 1); }
  }

  lemma RecordRoundTrip(rec: SymRecord)
    requires rec.timeStart < TWO_32 && rec.timeCount < TWO_32 && rec.rowStart < TWO_32
    ensures RecordFrom(RecordBytes(rec)) == rec
  {
    hide ToLe, FromLe, Pow2;
    Pow2Values();
    var b := RecordBytes(rec);
    assert b[0..4] == ToLe(rec.timeStart, 4) && b[4..8] == ToLe(rec.timeCount, 4) && b[8..12] == ToLe(rec.rowStart, 4);
    LeRoundTrip(rec.timeStart, 4);
    LeRoundTrip(rec.timeCount, 4);
    LeRoundTrip(rec.rowStart, 4);
  }

  lemma FiveParts(h: seq<byte>, a: seq<byte>, d: seq<byte>, s: seq<byte>, r: seq<byte>)
    ensures var b := h + a + d + s + r;
            && b[|h|..|h| + |a|] == a
            && b[|h| + |a|..|h| + |a| + |d|] == d
            && b[|h| + |a| + |d|..|h| + |a| + |d| + |s|] == s
            && b[|h| + |a| + |d| + |s|..|h| + |a| + |d| + |s| + |r|] == r
            && |b| == |h| + |a| + |d| + |s| + |r|
            && b == h + (a + d + s + r)
  {
  }

  lemma AxisRoundTrip(idx: Index, i: nat)
    requires idx.Valid() && i < |idx.axis|
    ensures (i + 1) * idx.tt.SizeOf() <= |AxisBytes(idx)|
    ensures FromLe(Cell(AxisBytes(idx), idx.tt.SizeOf(), i)) == idx.axis[i]
  {
    hide ToLe, FromLe, Pow2, Join;
    Pow2Values();
    JoinCell(AxisCells(idx, |idx.axis|), idx.tt.SizeOf(), i);
    LeRoundTrip(idx.axis[i], idx.tt.SizeOf());
  }

  lemma NameRoundTrip(names: seq<Str>, i: nat)
    requires i < |names| && |Join(names)| < TWO_64
    ensures |Join(OffsetCells(names, |names| + 1))| == (|names| + 1) * 8
    ensures var d := Join(OffsetCells(names, |names| + 1));
            && OffsetAt(d, |names|, i) <= OffsetAt(d, |names|, i + 1) <= |Join(names)|
            && Join(names)[OffsetAt(d, |names|, i)..OffsetAt(d, |names|, i + 1)] == names[i]
  {
    hide ToLe, FromLe, Pow2, Join;
    Pow2Values();
    var cells := OffsetCells(names, |names| + 1);
    JoinLength(cells, 8);
    JoinCell(cells, 8, i);
    JoinCell(cells, 8, i + 1);
    JoinSlice(names, i);
    LeRoundTrip(|Join(names[..i])|, 8);
    LeRoundTrip(|Join(names[..i + 1])|, 8);
  }

  lemma RecordCellRoundTrip(idx: Index, i: nat)
    requires Fits(idx) && i < |idx.recs|
    ensures (i + 1) * 12 <= |Join(RecordCells(idx.recs))|
    ensures RecordFrom(Cell(Join(RecordCells(idx.recs)), 12, i)) == idx.recs[i]
  {
    hide RecordFrom, RecordBytes, Join;
    JoinCell(RecordCells(idx.recs), 12, i);
    RecordsBounded(idx, i);
    RecordRoundTrip(idx.recs[i]);
  }

  lemma SectionSizes(idx: Index)
    ensures |AxisBytes(idx)| == |idx.axis| * idx.tt.SizeOf()
    ensures |Join(OffsetCells(idx.names, |idx.names| + 1))| == (|idx.names| + 1) * 8
    ensures |Join(RecordCells(idx.recs))| == |idx.recs| * 12
  {
    hide Join;
    JoinLength(AxisCells(idx, |idx.axis|), idx.tt.SizeOf());
    JoinLength(OffsetCells(idx.names, |idx.names| + 1), 8);
    JoinLength(RecordCells(idx.recs), 12);
  }

  lemma ParseAxisRoundTrip(idx: Index)
    requires idx.Valid()
    ensures |AxisBytes(idx)| == |idx.axis| * idx.tt.SizeOf()
    ensures ParseAxis(AxisBytes(idx), idx.tt.SizeOf(), |idx.axis|) == idx.axis
  {
    hide FromLe, Cell, AxisBytes;
    SectionSizes(idx);
    forall i | 0 <= i < |idx.axis|
      ensures ParseAxis(AxisBytes(idx), idx.tt.SizeOf(), |idx.axis|)[i] == idx.axis[i]
    {
      AxisRoundTrip(idx, i);
    }
  }

  lemma ParseNamesRoundTrip(names: seq<Str>)
    requires |Join(names)| < TWO_64
    ensures |Join(OffsetCells(names, |names| + 1))| == (|names| + 1) * 8
    ensures ParseNames(Join(OffsetCells(names, |names| + 1)), |names|, Join(names)) == Ok(names)
  {
    hide OffsetAt, Join, OffsetCells;
    OffsetsSize(names);
    var d, n := Join(OffsetCells(names, |names| + 1)), |names|;
    forall i | 0 <= i < n
      ensures NameInside(d, n, Join(names), i)
    {
      NameRoundTrip(names, i);
    }
    var p := ParseNames(d, n, Join(names)).value;
    forall i | 0 <= i < n
      ensures p[i] == names[i]
    {
      NameRoundTrip(names, i);
    }
    assert p == names;
  }

  lemma OffsetsSize(names: seq<Str>)
    ensures |Join(OffsetCells(names, |names| + 1))| == (|names| + 1) * 8
  {
    JoinLength(OffsetCells(names, |names| + 1), 8);
  }

  lemma ParseRecordsRoundTrip(idx: Index)
    requires Fits(idx)
    ensures |Join(RecordCells(idx.recs))| == |idx.recs| * 12
    ensures ParseRecords(Join(RecordCells(idx.recs)), |idx.recs|) == idx.recs
  {
    hide RecordFrom, Cell, Join;
    SectionSizes(idx);
    forall i | 0 <= i < |idx.recs|
      ensures ParseRecords(Join(RecordCells(idx.recs)), |idx.recs|)[i] == idx.recs[i]
    {
      RecordCellRoundTrip(idx, i);
    }
  }

  lemma HeaderFits(idx: Index)
    requires Fits(idx)
    ensures HeaderOf(idx).Fits() && |Join(idx.names)| < TWO_64 && |idx.names| == |idx.recs|
  {
    hide Join;
  }

  /** Parsing a written index gives the index back. */
  lemma FileRoundTrip(idx: Index)
    requires Fits(idx)
    ensures Parse(Serialized(idx)) == Ok(idx)
  {
    hide FromLe, ToLe, Join, HeaderFrom, OffsetCells, RecordCells, AxisBytes, ParseNames, ParseAxis, ParseRecords,
      MetaHeader.ToBytes, Index.Valid;
    var h := HeaderOf(idx);
    var a, d, s, r := AxisBytes(idx), Join(OffsetCells(idx.names, |idx.names| + 1)), Join(idx.names), Join(RecordCells(idx.recs));
    HeaderFits(idx);
    SectionSizes(idx);
    FiveParts(h.ToBytes(), a, d, s, r);
    HeaderRoundTrip(h, a + d + s + r);
    ParseAxisRoundTrip(idx);
    ParseNamesRoundTrip(idx.names);
    ParseRecordsRoundTrip(idx);
  }

  // ----- where everything stands in a written file

  function DictStart(idx: Index): nat { 64 + |idx.axis| * (if idx.tt.Date32? then 4 else 8) }

  function TextStart(idx: Index): nat { DictStart(idx) + (|idx.names| + 1) * 8 }

  function RecordStart(idx: Index): nat { TextStart(idx) + |Join(idx.names)| }

  lemma HeaderWithin(h: MetaHeader, rest: seq<byte>)
    requires h.Fits()
    ensures var b := h.ToBytes() + rest;
            && b[..8] == META_MAGIC && FromLe(b[8..10]) == h.version && FromLe(b[12..13]) == h.timeType
            && FromLe(b[16..24]) == h.generation && FromLe(b[24..28]) == h.timeCount
            && FromLe(b[28..32]) == h.symCount && FromLe(b[32..36]) == h.rowCount
            && FromLe(b[40..48]) == h.symDictOffset && FromLe(b[48..56]) == h.symIndexOffset
            && FromLe(b[56..64]) == h.fileSize
            && b[10..12] == [0, 0] && b[13..16] == [0, 0, 0] && b[36..40] == [0, 0, 0, 0]
  {
    hide ToLe, FromLe, Pow2, MetaHeader.ToBytes;
    Pow2Values();
    HeaderSlices(h, rest);
    ReservedSlices(h, rest);
    LeRoundTrip(h.version, 2);
    LeRoundTrip(h.timeType, 1);
    LeRoundTrip(h.generation, 8);
    LeRoundTrip(h.timeCount, 4);
    LeRoundTrip(h.symCount, 4);
    LeRoundTrip(h.rowCount, 4);
    LeRoundTrip(h.symDictOffset, 8);
    LeRoundTrip(h.symIndexOffset, 8);
    LeRoundTrip(h.fileSize, 8);
  }

  lemma ReservedSlices(h: MetaHeader, rest: seq<byte>)
    ensures var b := h.ToBytes() + rest;
            b[10..12] == [0, 0] && b[13..16] == [0, 0, 0] && b[36..40] == [0, 0, 0, 0]
  {
    var b := h.ToBytes() + rest;
    assert ToLe(0, 1) == [0] && ToLe(0, 2) == [0, 0] && ToLe(0, 3) == [0, 0, 0] && ToLe(0, 4) == [0, 0, 0, 0] by { Zeros(); }
    hide ToLe;
    assert b[10..12] == ToLe(0, 2) && b[13..16] == ToLe(0, 3) && b[36..40] == ToLe(0, 4);
  }

  lemma Zeros()
    ensures ToLe(0, 1) == [0] && ToLe(0, 2) == [0, 0] && ToLe(0, 3) == [0, 0, 0] && ToLe(0, 4) == [0, 0, 0, 0]
  {
    assert ToLe(0, 0) == [];
    assert ToLe(0, 1) == [0] + ToLe(0, 0);
    assert ToLe(0, 2) == [0] + ToLe(0, 1);
    assert ToLe(0, 3) == [0] + ToLe(0, 2);
    assert ToLe(0, 4) == [0] + ToLe(0, 3);
  }

  /** A header is accepted when it is long enough, starts with the magic and has version 2 and a
      known time type; nothing else of it is checked. */
  lemma HeaderAccepted(b: seq<byte>)
    ensures HeaderFrom(b).Ok? <==>
              && |b| >= 64 && b[..8] == [0x53, 0x50, 0x4C, 0x41, 0x59, 0x4D, 0x54, 0x41]
              && FromLe(b[8..10]) == 2 && (FromLe(b[12..13]) == 0 || FromLe(b[12..13]) == 1)
  {
    hide FromLe;
  }

  /** The header of a written file, byte by byte: `SPLAYMTA`, version 2, the time type,
      generation 1, the three counts, where dictionary and records begin, and the file's size;
      the reserved bytes are 0. */
  lemma HeaderLayout(idx: Index)
    requires Fits(idx)
    ensures var b := Serialized(idx);
            && |b| == RecordStart(idx) + 12 * |idx.names| && |b| >= 64
            && b[..8] == [0x53, 0x50, 0x4C, 0x41, 0x59, 0x4D, 0x54, 0x41]
            && FromLe(b[8..10]) == 2
            && FromLe(b[12..13]) == (if idx.tt.Date32? then 0 else 1)
            && FromLe(b[16..24]) == 1
            && FromLe(b[24..28]) == |idx.axis|
            && FromLe(b[28..32]) == |idx.names|
            && FromLe(b[32..36]) == |idx.Rows()|
            && FromLe(b[40..48]) == DictStart(idx)
            && FromLe(b[48..56]) == RecordStart(idx)
            && FromLe(b[56..64]) == |b|
            && b[10..12] == [0, 0] && b[13..16] == [0, 0, 0] && b[36..40] == [0, 0, 0, 0]
  {
    hide FromLe, ToLe, Join, OffsetCells, RecordCells, AxisBytes, MetaHeader.ToBytes, Index.Rows, Index.Valid;
    var h := HeaderOf(idx);
    var a, d, s, r := AxisBytes(idx), Join(OffsetCells(idx.names, |idx.names| + 1)), Join(idx.names), Join(RecordCells(idx.recs));
    HeaderFits(idx);
    SectionSizes(idx);
    FiveParts(h.ToBytes(), a, d, s, r);
    HeaderWithin(h, a + d + s + r);
    GridLength(idx);
  }

  /** Time `i` of the axis, after the header. */
  lemma AxisLayout(idx: Index, i: nat)
    requires Fits(idx) && i < |idx.axis|
    ensures var ts := if idx.tt.Date32? then 4 else 8;
            64 + i * ts <= 64 + i * ts + ts <= DictStart(idx) <= |Serialized(idx)|
            && FromLe(Serialized(idx)[64 + i * ts..64 + i * ts + ts]) == idx.axis[i]
  {
    hide FromLe, ToLe, Join, OffsetCells, RecordCells, AxisBytes, MetaHeader.ToBytes, Index.Valid;
    var a, d, s, r := AxisBytes(idx), Join(OffsetCells(idx.names, |idx.names| + 1)), Join(idx.names), Join(RecordCells(idx.recs));
    HeaderFits(idx);
    SectionSizes(idx);
    FiveParts(HeaderOf(idx).ToBytes(), a, d, s, r);
    AxisRoundTrip(idx, i);
    InsideSection(Serialized(idx), 64, a, idx.tt.SizeOf(), i);
  }

  lemma SliceOfSlice(b: seq<byte>, lo: nat, hi: nat, x: nat, y: nat)
    requires lo <= hi <= |b| && x <= y <= hi - lo
    ensures b[lo..hi][x..y] == b[lo + x..lo + y]
  {
    forall k | 0 <= k < y - x
      ensures b[lo..hi][x..y][k] == b[lo + x..lo + y][k]
    {
      assert b[lo..hi][x + k] == b[lo + (x + k)];
    }
  }

  lemma InsideSection(b: seq<byte>, at: nat, a: seq<byte>, s: nat, i: nat)
    requires at + |a| <= |b| && b[at..at + |a|] == a && (i + 1) * s <= |a|
    ensures i * s + s == (i + 1) * s && b[at + i * s..at + i * s + s] == Cell(a, s, i)
  {
    assert i * s + s == (i + 1) * s;
    SliceOfSlice(b, at, at + |a|, i * s, i * s + s);
  }

  /** Entry `j` of the dictionary, 64 bits: how long the names before `j` are together. */
  lemma DictLayout(idx: Index, j: nat)
    requires Fits(idx) && j <= |idx.names|
    ensures var at := DictStart(idx) + 8 * j;
            && at + 8 <= TextStart(idx) <= |Serialized(idx)|
            && FromLe(Serialized(idx)[at..at + 8]) == |Join(idx.names[..j])|
  {
    hide FromLe, ToLe, Join, OffsetCells, RecordCells, AxisBytes, MetaHeader.ToBytes, Index.Valid, Pow2;
    var a, d, s, r := AxisBytes(idx), Join(OffsetCells(idx.names, |idx.names| + 1)), Join(idx.names), Join(RecordCells(idx.recs));
    HeaderFits(idx);
    SectionSizes(idx);
    FiveParts(HeaderOf(idx).ToBytes(), a, d, s, r);
    Pow2Values();
    JoinCell(OffsetCells(idx.names, |idx.names| + 1), 8, j);
    PrefixShorter(idx.names, j);
    LeRoundTrip(|Join(idx.names[..j])|, 8);
    InsideSection(Serialized(idx), DictStart(idx), d, 8, j);
  }

  lemma PrefixShorter(names: seq<Str>, j: nat)
    requires j <= |names|
    ensures |Join(names[..j])| <= |Join(names)|
  {
    hide Join;
    if j < |names| { JoinSlice(names, j); } else { assert names[..j] == names; }
  }

  /** The text is the names one after the other. */
  lemma TextLayout(idx: Index, j: nat)
    requires Fits(idx) && j < |idx.names|
    ensures var lo, hi := |Join(idx.names[..j])|, |Join(idx.names[..j + 1])|;
            && lo <= hi && TextStart(idx) + hi <= RecordStart(idx) <= |Serialized(idx)|
            && Serialized(idx)[TextStart(idx) + lo..TextStart(idx) + hi] == idx.names[j]
  {
    hide FromLe, ToLe, Join, OffsetCells, RecordCells, AxisBytes, MetaHeader.ToBytes, Index.Valid;
    var a, d, s, r := AxisBytes(idx), Join(OffsetCells(idx.names, |idx.names| + 1)), Join(idx.names), Join(RecordCells(idx.recs));
    HeaderFits(idx);
    SectionSizes(idx);
    FiveParts(HeaderOf(idx).ToBytes(), a, d, s, r);
    JoinSlice(idx.names, j);
    SliceOfSlice(Serialized(idx), TextStart(idx), RecordStart(idx), |Join(idx.names[..j])|, |Join(idx.names[..j + 1])|);
  }

  /** Record `j`: its first time, its number of times and its first row, four bytes each. */
  lemma RecordLayout(idx: Index, j: nat)
    requires Fits(idx) && j < |idx.recs|
    ensures var b, at := Serialized(idx), RecordStart(idx) + 12 * j;
            && at + 12 <= |b|
            && FromLe(b[at..at + 4]) == idx.recs[j].timeStart
            && FromLe(b[at + 4..at + 8]) == idx.recs[j].timeCount
            && FromLe(b[at + 8..at + 12]) == idx.recs[j].rowStart
  {
    hide FromLe, ToLe, Join, OffsetCells, RecordCells, AxisBytes, MetaHeader.ToBytes, Index.Valid, RecordBytes;
    var a, d, s, r := AxisBytes(idx), Join(OffsetCells(idx.names, |idx.names| + 1)), Join(idx.names), Join(RecordCells(idx.recs));
    HeaderFits(idx);
    SectionSizes(idx);
    FiveParts(HeaderOf(idx).ToBytes(), a, d, s, r);
    RecordCellRoundTrip(idx, j);
    InsideSection(Serialized(idx), RecordStart(idx), r, 12, j);
    var b, at := Serialized(idx), RecordStart(idx) + 12 * j;
    ThreeFields(b, at, Cell(r, 12, j));
  }

  lemma ThreeFields(b: seq<byte>, at: nat, c: seq<byte>)
    requires |c| == 12 && at + 12 <= |b| && b[at..at + 12] == c
    ensures b[at..at + 4] == c[0..4] && b[at + 4..at + 8] == c[4..8] && b[at + 8..at + 12] == c[8..12]
  {
    SliceOfSlice(b, at, at + 12, 0, 4);
    SliceOfSlice(b, at, at + 12, 4, 8);
    SliceOfSlice(b, at, at + 12, 8, 12);
  }

  // ----- writing

  method Serialize(idx: Index) returns (out: seq<byte>)
    requires |idx.names| == |idx.recs|
    ensures out == Serialized(idx)
  {
    hide ToLe, Join, MetaHeader.ToBytes;
    var ts := idx.tt.SizeOf();
    out := HeaderOf(idx).ToBytes();
    var section := [];
    JoinEmpty();
    for i := 0 to |idx.axis|
      invariant section == Join(AxisCells(idx, i))
    {
      JoinCons(AxisCells(idx, i), ToLe(idx.axis[i], ts));
      assert AxisCells(idx, i + 1) == AxisCells(idx, i) + [ToLe(idx.axis[i], ts)];
      section := section + ToLe(idx.axis[i], ts);
    }
    out := out + section;
    var text, offsets := [], ToLe(0, 8);
    JoinCons([], ToLe(0, 8));
    assert OffsetCells(idx.names, 1) == [] + [ToLe(0, 8)] && idx.names[..0] == [];
    for i := 0 to |idx.names|
      invariant text == Join(idx.names[..i])
      invariant offsets == Join(OffsetCells(idx.names, i + 1))
    {
      JoinCons(idx.names[..i], idx.names[i]);
      assert idx.names[..i + 1] == idx.names[..i] + [idx.names[i]];
      text := text + idx.names[i];
      JoinCons(OffsetCells(idx.names, i + 1), ToLe(|text|, 8));
      assert OffsetCells(idx.names, i + 2) == OffsetCells(idx.names, i + 1) + [ToLe(|text|, 8)];
      offsets := offsets + ToLe(|text|, 8);
    }
    assert idx.names[..|idx.names|] == idx.names;
    out := out + offsets + text;
    section := [];
    for i := 0 to |idx.recs|
      invariant section == Join(RecordCells(idx.recs[..i]))
    {
      JoinCons(RecordCells(idx.recs[..i]), RecordBytes(idx.recs[i]));
      assert RecordCells(idx.recs[..i + 1]) == RecordCells(idx.recs[..i]) + [RecordBytes(idx.recs[i])];
      section := section + RecordBytes(idx.recs[i]);
    }
    assert idx.recs[..|idx.recs|] == idx.recs;
    out := out + section;
  }

  lemma JoinEmpty()
    ensures Join([]) == []
  {
  }

  /** A file that parses has a header, whose row count is read from bytes 32 to 35. */
  lemma ParsedHeader(b: seq<byte>)
    requires Parse(b).Ok?
    ensures HeaderFrom(b).Ok? && |b| >= 64 && HeaderFrom(b).value.rowCount == FromLe(b[32..36])
  {
    hide FromLe, ParseNames, ParseAxis, ParseRecords;
  }

  /** The whole builder: rows in, file bytes out. */
  method Build(inp: Input) returns (r: Result<seq<byte>>)
    requires inp.Typed()
    ensures r.Ok? <==> inp.Shaped() && inp.Named() && inp.AllAccepted()
    ensures r.Ok? && Fits(inp.Result()) ==> Parse(r.value) == Ok(inp.Result())
    ensures r.Ok? && Fits(inp.Result()) ==> |r.value| >= 64 && FromLe(r.value[32..36]) == |inp.keys|
    ensures r.Ok? && Fits(inp.Result()) ==> HeaderFrom(r.value).Ok? && HeaderFrom(r.value).value.rowCount == |inp.keys|
  {
    hide Serialized, Parse, Input.AllAccepted, Index.Rows, Fits, FromLe;
    var built := BuildIndex(inp);
    if built.Err? { return Err(built.error); }
    var bytes := Serialize(built.value);
    if Fits(inp.Result()) {
      FileRoundTrip(inp.Result());
      HeaderLayout(inp.Result());
      ResultSize(inp);
      ParsedHeader(bytes);
    }
    return Ok(bytes);
  }

  /** Building, storing, loading and reading, bounded by the row count in the file's header: any
      row range of the input comes back as it went in. */
  method BuildAndRead(inp: Input, offset: nat, length: nat) returns (r: Result<(Index, seq<Segment>)>)
    requires inp.Typed() && inp.Shaped() && inp.Named() && inp.AllAccepted() && Fits(inp.Result())
    ensures r.Ok? <==> offset + length <= |inp.keys|
    ensures r.Ok? ==> SegmentsFit(r.value.0, r.value.1)
    ensures r.Ok? && inp.RunsIncrease() && inp.OneName() ==>
              Flatten(r.value.0, r.value.1) == inp.Rows()[offset..offset + length]
  {
    hide Parse, HeaderFrom, Input.AllAccepted, Input.RunsIncrease, Input.OneName, Fits, Flatten, Index.Rows, Input.Rows;
    var bytes := Build(inp);
    var header := HeaderFrom(bytes.value);
    if offset + length > header.value.rowCount { return Err(Invalid); }
    var idx := Parse(bytes.value);
    ResultValid(inp);
    BuildExact(inp);
    var segs := ReadIndex(idx.value, offset, length);
    return Ok((idx.value, segs.value));
  }
}
