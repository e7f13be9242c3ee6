/** When the 32-bit lengths of a chunk header are enough: the storage conditions of the field
    operations hold for every column whose chunks stay below a fixed number of rows. */
module Capacity {
  import opened Bitpack
  import opened Bits
  import opened Bitmap
  import opened Cells
  import opened Chunk
  import opened ChunkStream
  import D = Delta
  import R = Rle
  import opened FieldConvert
  import opened FieldFiles
  import opened FieldHandles
  import opened Formats

  /** 2^27 rows: the widest encoding stays below 13 bytes a row with its validity bit. */
  const SAFE_ROWS := 134_217_728

  /** A codec that at worst doubles its input, plus a frame of 64 KiB. */
  ghost predicate Tame(c: Compressor) {
    forall x :: |c.pack(x)| <= 2 * |x| + 65_536
  }

  lemma StoredTame()
    ensures Tame(STORED)
  {
  }

  /** A run costs four bytes and one cell, and there is at most one run a row. */
  lemma {:induction false} RunsSize(cells: seq<seq<byte>>, s: nat)
    requires s <= 8 && forall i :: 0 <= i < |cells| ==> |cells[i]| == s
    ensures |R.EncodedRuns(cells)| <= 12 * |cells|
    decreases |cells|
  {
    if cells != [] {
      RunsSize(cells[R.RunLength(cells)..], s);
    }
  }

  /** No encoding takes more than twelve bytes a row and one byte of header. */
  lemma EncodedSize(enc: Encoding, dt: DataType, values: seq<byte>, rows: nat)
    requires |values| == rows * dt.SizeOf()
    ensures EncodedValues(enc, dt, values, rows).Ok?
    ensures |EncodedValues(enc, dt, values, rows).value| <= 12 * rows + 1
  {
    hide R.EncodedRuns, EncodedBits, Pack, Mapped, Widest, Join, CellsOf, D.EncodedCells;
    var s := dt.SizeOf();
    MulLessEq(s, 8, rows);
    assert rows * s == s * rows;
    match enc
    case Plain =>
    case Delta => JoinLength(D.EncodedCells(values, s, rows), s);
    case Rle => RunsSize(CellsOf(values, s, rows), s);
    case Bitpack =>
      WidestFits(dt, values, rows);
      var w := Widest(Mapped(dt, values, rows));
      MulLessEq(w, 64, rows);
      assert rows * w == w * rows;
  }

  /** A chunk of at most `SAFE_ROWS` rows fits its header. */
  lemma SafeChunk(enc: Encoding, codec: Compressor, dt: DataType, c: ChunkData)
    requires Tame(codec) && Shaped(c, dt) && c.rows <= SAFE_ROWS
    ensures ChunkFits(enc, codec, dt, c.values, c.validity, c.rows)
  {
    hide EncodedValues;
    EncodedSize(enc, dt, c.values, c.rows);
    var raw := RawOf(EncodedValues(enc, dt, c.values, c.rows).value, c.validity);
    assert |raw| <= 13 * c.rows + 2;
    assert |codec.pack(raw)| <= 2 * |raw| + 65_536;
  }

  predicate SafeLens(lens: seq<nat>) { forall i :: 0 <= i < |lens| ==> 0 < lens[i] <= SAFE_ROWS }

  lemma SafeStores(h: FieldHeader, values: seq<byte>, bits: Option<seq<bool>>, lens: seq<nat>)
    requires Cuttable(values, bits, h.dt, h.rows) && Sum(lens) == h.rows
    requires Lossless(h.Codec()) && Tame(h.Codec()) && SafeLens(lens)
    ensures Stores(h, values, bits, lens)
  {
    hide Split, ChunkFits, Tame, Lossless, Shaped;
    var cs := Split(values, bits, h.dt, h.rows, lens);
    forall i | 0 <= i < |cs|
      ensures cs[i].rows > 0 && ChunkFits(h.enc, h.Codec(), h.dt, cs[i].values, cs[i].validity, cs[i].rows)
    {
      assert Lens(cs)[i] == lens[i];
      SafeChunk(h.enc, h.Codec(), h.dt, cs[i]);
    }
  }

  /** With chunks of at most `SAFE_ROWS` rows, every column of the header's shape can be
      stored, whatever is written to it. */
  lemma SafeRoomy(h: FieldHeader, lens: seq<nat>)
    requires Lossless(h.Codec()) && Tame(h.Codec()) && Sum(lens) == h.rows && SafeLens(lens)
    ensures Roomy(h, lens)
  {
    hide Stores;
    forall v: seq<byte>, b: Option<seq<bool>> | Cuttable(v, b, h.dt, h.rows)
      ensures Stores(h, v, b, lens)
    {
      SafeStores(h, v, b, lens);
    }
  }

  /** Chunks that are only encoded need no assumption about a backend. */
  lemma StoredRoomy(h: FieldHeader, lens: seq<nat>)
    requires !h.comp.Compressed? && Sum(lens) == h.rows && SafeLens(lens)
    ensures Roomy(h, lens)
  {
    hide Roomy, Tame, Lossless;
    StoredTame();
    StoredLossless();
    SafeRoomy(h, lens);
  }

  /** A column of at most `SAFE_ROWS` rows can be stored however it is cut. */
  lemma SafeAnyCut(h: FieldHeader, values: seq<byte>, bits: Option<seq<bool>>)
    requires Cuttable(values, bits, h.dt, h.rows) && h.rows <= SAFE_ROWS
    requires Lossless(h.Codec()) && Tame(h.Codec())
    ensures StoresAnyCut(h, values, bits)
  {
    hide Stores;
    forall lens: seq<nat> | Sum(lens) == h.rows && (forall i :: 0 <= i < |lens| ==> lens[i] > 0)
      ensures Stores(h, values, bits, lens)
    {
      PartsBelowSum(lens);
      SafeStores(h, values, bits, lens);
    }
  }

  lemma {:induction false} PartsBelowSum(lens: seq<nat>)
    ensures forall i :: 0 <= i < |lens| ==> lens[i] <= Sum(lens)
  {
    if lens != [] { PartsBelowSum(lens[..|lens| - 1]); }
  }
}
