/** Columns: fixed-width values with a validity bit per row, whole or as a list of
    borrowed segments. */
module Columns {
  import opened Bits
  import opened Bitmap
  import opened Cells
  import opened Formats

  /** A cell: its bytes, or NULL. */
  type CellValue = Option<seq<byte>>

  /** `rows` cells of width `s`. */
  function CellsFrom(values: seq<byte>, bits: seq<bool>, s: nat): (r: seq<CellValue>)
    requires |values| == |bits| * s
    ensures |r| == |bits|
  {
    seq(|bits|, i requires 0 <= i < |bits| =>
      CellFits(s, i, |bits|);
      if bits[i] then Some(Cell(values, s, i)) else None)
  }

  /** How many cells are NULL. */
  function Nulls(bits: seq<bool>): (n: nat)
    ensures n <= |bits|
  {
    |bits| - CountTrue(bits)
  }

  /** A borrowed run of validity bits, starting anywhere in its buffer. */
  datatype BitView = BitView(data: seq<byte>, off: nat, len: nat) {
    predicate Valid() { off + len <= 8 * |data| }

    function Bits(): (r: seq<bool>)
      requires Valid()
      ensures |r| == len
    {
      BitsOf(data, off, len)
    }
  }

  /** A contiguous piece of a column; no bits means that all rows are valid. */
  datatype Segment = Segment(values: seq<byte>, validity: Option<BitView>, rows: nat) {
    predicate Valid(s: nat) {
      |values| == rows * s && (validity.Some? ==> validity.value.Valid() && validity.value.len == rows)
    }

    function Bits(): (r: seq<bool>)
      requires validity.Some? ==> validity.value.Valid() && validity.value.len == rows
      ensures |r| == rows
    {
      if validity.Some? then validity.value.Bits() else Same(true, rows)
    }

    /** As the view's own bit offset were zero. */
    function Reset(): Segment {
      if validity.Some? then this.(validity := Some(BitView(validity.value.data, 0, validity.value.len))) else this
    }
  }

  type View = seq<Segment>

  predicate ViewValid(v: View, s: nat) {
    forall i :: 0 <= i < |v| ==> v[i].Valid(s)
  }

  function Rows(v: View): nat {
    if v == [] then 0 else Rows(v[..|v| - 1]) + v[|v| - 1].rows
  }

  function ViewValues(v: View): seq<byte> {
    if v == [] then [] else ViewValues(v[..|v| - 1]) + v[|v| - 1].values
  }

  function ViewBits(v: View, s: nat): (r: seq<bool>)
    requires ViewValid(v, s)
    ensures |r| == Rows(v)
  {
    if v == [] then [] else
      assert v[|v| - 1].Valid(s);
      ViewBits(v[..|v| - 1], s) + v[|v| - 1].Bits()
  }

  lemma {:induction false} ViewSize(v: View, s: nat)
    requires ViewValid(v, s)
    ensures |ViewValues(v)| == Rows(v) * s
  {
    if v != [] {
      assert v[|v| - 1].Valid(s);
      ViewSize(v[..|v| - 1], s);
      MulSum(Rows(v[..|v| - 1]), v[|v| - 1].rows, s);
    }
  }

  lemma MulSum(a: nat, b: nat, s: nat)
    ensures (a + b) * s == a * s + b * s
  {
  }

  /** The cells a view stands for. */
  function ViewCells(v: View, s: nat): (r: seq<CellValue>)
    requires ViewValid(v, s)
    ensures |r| == Rows(v)
  {
    ViewSize(v, s);
    CellsFrom(ViewValues(v), ViewBits(v, s), s)
  }

  lemma ViewMore(v: View, seg: Segment, s: nat)
    requires ViewValid(v, s) && seg.Valid(s)
    ensures ViewValid(v + [seg], s) && Rows(v + [seg]) == Rows(v) + seg.rows
    ensures ViewValues(v + [seg]) == ViewValues(v) + seg.values
    ensures ViewBits(v + [seg], s) == ViewBits(v, s) + seg.Bits()
  {
    assert (v + [seg])[..|v|] == v;
  }

  // ----- slices and joins of cells

  lemma CellOfSlice(v: seq<byte>, s: nat, lo: nat, hi: nat, i: nat)
    requires hi * s <= |v| && lo + i < hi
    ensures lo * s <= hi * s && (i + 1) * s <= |v[lo * s..hi * s]| && (lo + i + 1) * s <= |v|
    ensures Cell(v[lo * s..hi * s], s, i) == Cell(v, s, lo + i)
  {
    var w, at := i * s, lo * s;
    MulSum(lo, i, s);
    MulSum(i, 1, s);
    MulSum(lo + i, 1, s);
    MulSum(lo + i + 1, hi - (lo + i + 1), s);
    assert v[at..hi * s][w..w + s] == v[at + w..at + w + s];
  }

  lemma CellsSlice(v: seq<byte>, b: seq<bool>, s: nat, lo: nat, hi: nat)
    requires |v| == |b| * s && lo <= hi <= |b|
    ensures lo * s <= hi * s <= |v| && |v[lo * s..hi * s]| == (hi - lo) * s
    ensures CellsFrom(v[lo * s..hi * s], b[lo..hi], s) == CellsFrom(v, b, s)[lo..hi]
  {
    hide CellsFrom;
    MulSum(lo, hi - lo, s);
    MulSum(hi, |b| - hi, s);
    var part := CellsFrom(v[lo * s..hi * s], b[lo..hi], s);
    forall i: nat | i < hi - lo
      ensures part[i] == CellsFrom(v, b, s)[lo + i]
    {
      CellSliced(v, b, s, lo, hi, i);
    }
  }

  lemma CellSliced(v: seq<byte>, b: seq<bool>, s: nat, lo: nat, hi: nat, i: nat)
    requires |v| == |b| * s && lo <= hi <= |b| && i < hi - lo
    ensures lo * s <= hi * s <= |v| && |v[lo * s..hi * s]| == (hi - lo) * s
    ensures CellsFrom(v[lo * s..hi * s], b[lo..hi], s)[i] == CellsFrom(v, b, s)[lo + i]
  {
    MulSum(lo, hi - lo, s);
    MulSum(hi, |b| - hi, s);
    CellOfSlice(v, s, lo, hi, i);
  }

  lemma CellsJoin(v1: seq<byte>, b1: seq<bool>, v2: seq<byte>, b2: seq<bool>, s: nat)
    requires |v1| == |b1| * s && |v2| == |b2| * s
    ensures |v1 + v2| == |b1 + b2| * s
    ensures CellsFrom(v1 + v2, b1 + b2, s) == CellsFrom(v1, b1, s) + CellsFrom(v2, b2, s)
  {
    hide CellsFrom;
    MulSum(|b1|, |b2|, s);
    var v, b := v1 + v2, b1 + b2;
    var n, m := |b1|, |b|;
    CellsSlice(v, b, s, 0, n);
    CellsSlice(v, b, s, n, m);
    assert v[0..n * s] == v1 && v[n * s..m * s] == v2;
    assert b[0..n] == b1 && b[n..m] == b2;
    var all := CellsFrom(v, b, s);
    assert all == all[0..n] + all[n..m];
  }

  /** `new` laid over `old` from position `at`. */
  function Splice<T>(old_: seq<T>, at: nat, new_: seq<T>): (r: seq<T>)
    requires at + |new_| <= |old_|
    ensures |r| == |old_|
  {
    old_[..at] + new_ + old_[at + |new_|..]
  }

  lemma CellsSplice(v: seq<byte>, b: seq<bool>, s: nat, at: nat, v': seq<byte>, b': seq<bool>)
    requires |v| == |b| * s && |v'| == |b'| * s && at + |b'| <= |b|
    ensures at * s + |v'| <= |v|
    ensures CellsFrom(Splice(v, at * s, v'), Splice(b, at, b'), s) == Splice(CellsFrom(v, b, s), at, CellsFrom(v', b', s))
  {
    var n := |b'|;
    MulSum(at, n, s);
    CellsSlice(v, b, s, 0, at);
    CellsSlice(v, b, s, at + n, |b|);
    assert v[0..at * s] == v[..at * s] && v[(at + n) * s..|b| * s] == v[at * s + |v'|..];
    assert b[0..at] == b[..at] && b[at + n..|b|] == b[at + n..];
    CellsJoin(v[..at * s], b[..at], v', b', s);
    CellsJoin(v[..at * s] + v', b[..at] + b', v[at * s + |v'|..], b[at + n..], s);
  }

  /** Overwriting bits of a buffer splices its bit list. */
  lemma OverwrittenSplice(old_: seq<byte>, cur: seq<byte>, at: nat, bits: seq<bool>, n: nat)
    requires Overwritten(old_, cur, at, bits, |bits|) && at + |bits| <= n <= 8 * |cur|
    ensures BitsOf(cur, 0, n) == Splice(BitsOf(old_, 0, n), at, bits)
  {
    var a, b := BitsOf(cur, 0, n), Splice(BitsOf(old_, 0, n), at, bits);
    forall i: nat | i < n
      ensures a[i] == b[i]
    {
      assert a[i] == BitAt(cur, i);
    }
  }

  lemma {:induction false} NoNulls(bits: seq<bool>)
    ensures Nulls(bits) == 0 <==> bits == Same(true, |bits|)
  {
    CountTrueFull(bits);
  }

  // ----- slicing a view

  /** `n` rows of a segment, its bits taken from the start of the buffer. */
  function Piece(seg: Segment, s: nat, lo: nat, n: nat): (r: Segment)
    requires seg.Valid(s) && lo + n <= seg.rows
  {
    MulSum(lo, n, s);
    MulSum(lo + n, seg.rows - (lo + n), s);
    var v := if seg.validity.Some? then Some(BitView(seg.validity.value.data, lo, n)) else None;
    Segment(seg.values[lo * s..(lo + n) * s], v, n)
  }

  lemma PieceExact(seg: Segment, s: nat, lo: nat, n: nat)
    requires seg.Valid(s) && lo + n <= seg.rows
    ensures lo * s <= (lo + n) * s <= |seg.values|
    ensures Piece(seg, s, lo, n).Valid(s) && Piece(seg, s, lo, n).rows == n
    ensures Piece(seg, s, lo, n).values == seg.values[lo * s..(lo + n) * s]
    ensures Piece(seg, s, lo, n).Bits() == seg.Reset().Bits()[lo..lo + n]
  {
    MulSum(lo, n, s);
    MulSum(lo + n, seg.rows - (lo + n), s);
  }

  function ResetAll(v: View): (r: View)
    ensures |r| == |v| && forall i :: 0 <= i < |v| ==> r[i] == v[i].Reset()
  {
    seq(|v|, i requires 0 <= i < |v| => v[i].Reset())
  }

  /** Views that start at bit 0 of their buffers, as those of owned columns do. */
  predicate Aligned(v: View) {
    forall i :: 0 <= i < |v| ==> v[i].validity.Some? ==> v[i].validity.value.off == 0
  }

  lemma AlignedReset(v: View)
    requires Aligned(v)
    ensures ResetAll(v) == v
  {
  }

  lemma ResetValid(v: View, s: nat)
    requires ViewValid(v, s)
    ensures ViewValid(ResetAll(v), s)
  {
    forall i | 0 <= i < |v|
      ensures ResetAll(v)[i].Valid(s)
    {
      assert v[i].Valid(s);
    }
  }

  lemma {:induction false} ResetRows(v: View)
    ensures Rows(ResetAll(v)) == Rows(v) && ViewValues(ResetAll(v)) == ViewValues(v)
  {
    if v != [] {
      assert ResetAll(v)[..|v| - 1] == ResetAll(v[..|v| - 1]);
      ResetRows(v[..|v| - 1]);
    }
  }

  /** Rows `[offset, offset + length)` of a view, segment by segment. The bits are taken
      from the start of each segment's buffer: the view's own bit offset is dropped, so the
      slice is exact for aligned views. */
  method SliceRows(v: View, s: nat, offset: nat, length: nat) returns (r: Result<View>)
    requires ViewValid(v, s)
    ensures r.Ok? <==> offset + length <= Rows(v)
    ensures r.Ok? ==> ViewValid(r.value, s) && Rows(r.value) == length && ViewValid(ResetAll(v), s) && Rows(ResetAll(v)) == Rows(v)
    ensures r.Ok? ==> ViewCells(r.value, s) == ViewCells(ResetAll(v), s)[offset..offset + length]
    ensures r.Ok? ==> offset * s <= (offset + length) * s <= |ViewValues(v)|
    ensures r.Ok? ==> ViewValues(r.value) == ViewValues(v)[offset * s..(offset + length) * s]
  {
    hide ViewBits, CellsFrom, ViewValues, ResetAll, Sliced, Piece, Segment.Valid;
    ResetValid(v, s);
    ResetRows(v);
    ViewSize(v, s);
    if offset + length > Rows(v) { return Err(Invalid); }
    SlicedNone(s, ViewValues(v), ViewBits(ResetAll(v), s), offset);
    if length == 0 {
      SlicedCells([], s, ViewValues(v), ViewBits(ResetAll(v), s), offset, offset);
      return Ok([]);
    }
    var end := offset + length;
    var segments, segStart, pos := [], 0, offset;
    assert v[..0] == [];
    for i := 0 to |v|
      invariant segStart == Rows(v[..i]) && pos >= 0
      invariant pos == (if segStart < offset then offset else if segStart < end then segStart else end)
      invariant offset <= pos <= end && segStart <= Rows(v)
      invariant Sliced(segments, s, ViewValues(v), ViewBits(ResetAll(v), s), offset, pos)
    {
      if pos >= end { break; }
      var seg := v[i];
      assert seg.Valid(s);
      PrefixRows(v, i);
      var segEnd := segStart + seg.rows;
      var lo := if pos > segStart then pos else segStart;
      var hi := if end < segEnd then end else segEnd;
      if hi > lo {
        SliceStep(v, s, i, segments, offset, lo - segStart, hi - lo);
        segments := segments + [Piece(seg, s, lo - segStart, hi - lo)];
        pos := hi;
      }
      segStart := segEnd;
    }
    assert v[..|v|] == v;
    SlicedCells(segments, s, ViewValues(v), ViewBits(ResetAll(v), s), offset, end);
    return Ok(segments);
  }

  lemma PrefixRows(v: View, i: nat)
    requires i < |v|
    ensures Rows(v[..i + 1]) == Rows(v[..i]) + v[i].rows
    ensures Rows(v[..i + 1]) <= Rows(v)
  {
    assert v[..i + 1][..i] == v[..i];
    RowsMonotone(v, i + 1);
  }

  lemma {:induction false} RowsMonotone(v: View, i: nat)
    requires i <= |v|
    ensures Rows(v[..i]) <= Rows(v)
  {
    if i < |v| {
      RowsMonotone(v[..|v| - 1], i);
      assert v[..|v| - 1][..i] == v[..i];
    } else {
      assert v[..i] == v;
    }
  }

  lemma {:induction false} ValuesPrefix(v: View, i: nat)
    requires i < |v|
    ensures ViewValues(v[..i]) + v[i].values <= ViewValues(v)
  {
    var m := |v| - 1;
    if i < m {
      ValuesPrefix(v[..m], i);
      assert v[..m][..i] == v[..i];
    }
  }

  lemma {:induction false} BitsPrefix(v: View, s: nat, i: nat)
    requires ViewValid(v, s) && i < |v|
    ensures ViewValid(v[..i], s) && v[i].Valid(s)
    ensures ViewBits(v[..i], s) + v[i].Bits() <= ViewBits(v, s)
  {
    hide Segment.Bits;
    var m := |v| - 1;
    assert v[i].Valid(s) && v[m].Valid(s);
    if i < m {
      BitsPrefix(v[..m], s, i);
      assert v[..m][..i] == v[..i];
      assert ViewBits(v, s) == ViewBits(v[..m], s) + v[m].Bits();
    }
  }

  lemma PrefixSlice<T>(p: seq<T>, q: seq<T>, all: seq<T>, lo: nat, hi: nat)
    requires p + q <= all && lo <= hi <= |q|
    ensures |p| + hi <= |all| && all[|p| + lo..|p| + hi] == q[lo..hi]
  {
    assert all[..|p + q|] == p + q;
  }

  /** A segment's values sit at its row offset in the whole view. */
  lemma ValuesInside(v: View, s: nat, i: nat, lo: nat, n: nat)
    requires ViewValid(v, s) && i < |v| && lo + n <= v[i].rows
    ensures var at := Rows(v[..i]) + lo;
            && lo * s <= (lo + n) * s <= |v[i].values|
            && at * s <= (at + n) * s <= |ViewValues(v)|
            && ViewValues(v)[at * s..(at + n) * s] == v[i].values[lo * s..(lo + n) * s]
  {
    hide ViewValues, Rows;
    assert v[i].Valid(s);
    var before := Rows(v[..i]);
    MulSum(lo, n, s);
    MulSum(lo + n, v[i].rows - (lo + n), s);
    MulSum(before, lo, s);
    MulSum(before, lo + n, s);
    ViewSize(v[..i], s);
    ValuesPrefix(v, i);
    PrefixSlice(ViewValues(v[..i]), v[i].values, ViewValues(v), lo * s, (lo + n) * s);
  }

  /** So do its bits. */
  lemma BitsInside(v: View, s: nat, i: nat, lo: nat, n: nat)
    requires ViewValid(v, s) && i < |v| && lo + n <= v[i].rows
    ensures v[i].Valid(s) && Rows(v[..i]) + lo + n <= Rows(v)
    ensures ViewBits(v, s)[Rows(v[..i]) + lo..Rows(v[..i]) + lo + n] == v[i].Bits()[lo..lo + n]
  {
    hide Rows, Segment.Bits;
    assert v[i].Valid(s);
    BitsPrefix(v, s, i);
    PrefixSlice(ViewBits(v[..i], s), v[i].Bits(), ViewBits(v, s), lo, lo + n);
  }

  lemma ResetPrefix(v: View, s: nat, i: nat)
    requires ViewValid(v, s) && i < |v|
    ensures ViewValid(ResetAll(v), s) && v[i].Valid(s) && v[i].Reset().Valid(s) && ResetAll(v)[i] == v[i].Reset()
    ensures Rows(ResetAll(v)[..i]) == Rows(v[..i])
  {
    ResetValid(v, s);
    assert v[i].Valid(s);
    assert ResetAll(v)[..i] == ResetAll(v[..i]);
    ResetRows(v[..i]);
  }

  /** One step of the slice: the piece of segment `i` extends what was taken so far. */
  lemma SliceStep(v: View, s: nat, i: nat, segs: View, from: nat, lo: nat, n: nat)
    requires ViewValid(v, s) && i < |v| && lo + n <= v[i].rows && v[i].Valid(s)
    requires ViewValid(ResetAll(v), s) && |ViewValues(v)| == |ViewBits(ResetAll(v), s)| * s
    requires Sliced(segs, s, ViewValues(v), ViewBits(ResetAll(v), s), from, Rows(v[..i]) + lo)
    ensures Sliced(segs + [Piece(v[i], s, lo, n)], s, ViewValues(v), ViewBits(ResetAll(v), s), from, Rows(v[..i]) + lo + n)
  {
    hide Rows, ViewValues, ViewBits, Segment.Bits, ResetAll;
    ResetPrefix(v, s, i);
    ValuesInside(v, s, i, lo, n);
    BitsInside(ResetAll(v), s, i, lo, n);
    PieceExact(v[i], s, lo, n);
    SlicedMore(segs, s, ViewValues(v), ViewBits(ResetAll(v), s), from, Rows(v[..i]) + lo, Rows(v[..i]) + lo + n, Piece(v[i], s, lo, n));
  }

  ghost predicate Sliced(segs: View, s: nat, values: seq<byte>, bits: seq<bool>, lo: nat, hi: nat) {
    && lo <= hi <= |bits| && |values| == |bits| * s
    && lo * s <= hi * s <= |values|
    && ViewValid(segs, s)
    && ViewValues(segs) == values[lo * s..hi * s] && ViewBits(segs, s) == bits[lo..hi]
  }

  lemma SlicedNone(s: nat, values: seq<byte>, bits: seq<bool>, at: nat)
    requires |values| == |bits| * s && at <= |bits|
    ensures Sliced([], s, values, bits, at, at)
  {
    MulSum(at, |bits| - at, s);
  }

  lemma SlicedMore(segs: View, s: nat, values: seq<byte>, bits: seq<bool>, from: nat, lo: nat, hi: nat, piece: Segment)
    requires Sliced(segs, s, values, bits, from, lo) && lo <= hi <= |bits| && piece.Valid(s)
    requires lo * s <= hi * s <= |values|
    requires piece.values == values[lo * s..hi * s] && piece.Bits() == bits[lo..hi]
    ensures Sliced(segs + [piece], s, values, bits, from, hi)
  {
    hide ViewValues, ViewBits, Rows, Segment.Bits;
    ViewMore(segs, piece, s);
    MulSum(from, lo - from, s);
    SliceJoin(values, from * s, lo * s, hi * s);
    SliceJoin(bits, from, lo, hi);
  }

  lemma SliceJoin<T>(q: seq<T>, a: nat, b: nat, c: nat)
    requires a <= b <= c <= |q|
    ensures q[a..b] + q[b..c] == q[a..c]
  {
  }

  lemma SlicedCells(segs: View, s: nat, values: seq<byte>, bits: seq<bool>, lo: nat, hi: nat)
    requires Sliced(segs, s, values, bits, lo, hi)
    ensures ViewValid(segs, s) && Rows(segs) == hi - lo
    ensures lo * s <= hi * s <= |values| && ViewValues(segs) == values[lo * s..hi * s]
    ensures ViewCells(segs, s) == CellsFrom(values, bits, s)[lo..hi]
  {
    CellsSlice(values, bits, s, lo, hi);
  }

  /** Aligned views are the only safe ones: at every other offset some buffer makes the
      first row of the view valid and the first row of its slice NULL. */
  lemma OffsetIsDropped(off: nat, n: nat) returns (data: seq<byte>)
    requires off > 0 && n > 0
    ensures BitView(data, off, n).Valid() && BitView(data, 0, n).Valid()
    ensures BitView(data, off, n).Bits()[0] && !BitView(data, 0, n).Bits()[0]
  {
    var bits := seq(off + n, i => i == off);
    data := Pack(bits);
    assert BitAt(data, off) == bits[off] && BitAt(data, 0) == bits[0];
  }
}
