/** RLE: `(run length as u32, value)` pairs over maximal runs. */
module Rle {
  import opened Bits
  import opened Cells
  import opened Formats

  /** The length of the run of equal cells starting at the head. */
  function RunLength(cells: seq<seq<byte>>): (n: nat)
    requires cells != []
    ensures 1 <= n <= |cells|
    ensures forall i :: 0 <= i < n ==> cells[i] == cells[0]
    ensures n < |cells| ==> cells[n] != cells[0]
  {
    if |cells| == 1 || cells[1] != cells[0] then 1 else 1 + RunLength(cells[1..])
  }

  function EncodedRuns(cells: seq<seq<byte>>): seq<byte> {
    if cells == [] then [] else
      var n := RunLength(cells);
      ToLe(n, 4) + cells[0] + EncodedRuns(cells[n..])
  }

  function Repeat(c: seq<byte>, n: nat): (r: seq<seq<byte>>)
    ensures |r| == n && forall i :: 0 <= i < n ==> r[i] == c
  {
    seq(n, i => c)
  }

  /** Decoding from a position: `got` of `rows` values are already out. */
  function DecodedFrom(p: seq<byte>, s: nat, got: nat, rows: nat): Result<seq<seq<byte>>>
    decreases |p|
  {
    if got >= rows then
      if p == [] then Ok([]) else Err(Corrupt)
    else if |p| < 4 + s then Err(Truncated)
    else
      var n := FromLe(p[..4]);
      if got + n > rows then Err(RowCountMismatch)
      else
        var rest :- DecodedFrom(p[4 + s..], s, got + n, rows);
        Ok(Repeat(p[4..4 + s], n) + rest)
  }

  function Encoded(dt: DataType, values: seq<byte>, n: nat): seq<byte>
    requires n * dt.SizeOf() <= |values|
  {
    EncodedRuns(CellsOf(values, dt.SizeOf(), n))
  }

  function Decoded(dt: DataType, payload: seq<byte>, rows: nat): Result<seq<byte>> {
    var cells :- DecodedFrom(payload, dt.SizeOf(), 0, rows);
    Ok(Join(cells))
  }

  /** A payload that decodes holds exactly the rows that were missing. */
  lemma {:induction false} DecodedCount(p: seq<byte>, s: nat, got: nat, rows: nat)
    requires got <= rows && DecodedFrom(p, s, got, rows).Ok?
    ensures |DecodedFrom(p, s, got, rows).value| == rows - got
    ensures forall c :: c in DecodedFrom(p, s, got, rows).value ==> |c| == s
    decreases |p|
  {
    hide FromLe;
    if got < rows {
      var n := FromLe(p[..4]);
      DecodedCount(p[4 + s..], s, got + n, rows);
    }
  }

  lemma U32RoundTrip(n: nat)
    requires n < TWO_32
    ensures FromLe(ToLe(n, 4)) == n
  {
    FromToLe(n, 4);
    Pow2Values();
    ModUnique(n, TWO_32, 0, n);
  }

  lemma ThreeParts(a: seq<byte>, b: seq<byte>, c: seq<byte>)
    ensures (a + b + c)[..|a|] == a
    ensures (a + b + c)[|a|..|a| + |b|] == b
    ensures (a + b + c)[|a| + |b|..] == c
  {
  }

  lemma DecodedNone(s: nat, got: nat)
    ensures DecodedFrom(EncodedRuns([]), s, got, got) == Ok([])
  {
  }

  /** Decoding one `(run, value)` pair. */
  lemma DecodedPair(n: nat, c: seq<byte>, rest: seq<byte>, s: nat, got: nat, rows: nat)
    requires |c| == s && n < TWO_32 && got < rows && got + n <= rows
    ensures DecodedFrom(ToLe(n, 4) + c + rest, s, got, rows) == Prepend(Repeat(c, n), DecodedFrom(rest, s, got + n, rows))
  {
    hide ToLe, FromLe;
    U32RoundTrip(n);
    ThreeParts(ToLe(n, 4), c, rest);
  }

  /** The runs put back are the cells, and their lengths sum to the row count. */
  lemma {:induction false} RunsRoundTrip(cells: seq<seq<byte>>, s: nat, got: nat)
    requires forall i :: 0 <= i < |cells| ==> |cells[i]| == s
    requires |cells| < TWO_32
    ensures DecodedFrom(EncodedRuns(cells), s, got, got + |cells|) == Ok(cells)
    decreases |cells|
  {
    hide DecodedFrom, ToLe, RunLength, EncodedRuns;
    if cells == [] {
      DecodedNone(s, got);
    } else {
      var n := RunLength(cells);
      assert cells[0..] == cells;
      EncodedRunsStep(cells, 0, n);
      var rest := cells[n..];
      assert got + n + |rest| == got + |cells|;
      DecodedPair(n, cells[0], EncodedRuns(cells[n..]), s, got, got + |cells|);
      RunsRoundTrip(cells[n..], s, got + n);
      assert Repeat(cells[0], n) + cells[n..] == cells;
    }
  }

  lemma RoundTrip(dt: DataType, values: seq<byte>, n: nat)
    requires Whole(values, dt.SizeOf(), n) && n < TWO_32
    ensures Decoded(dt, Encoded(dt, values, n), n) == Ok(values)
  {
    hide CellsOf, DecodedFrom, EncodedRuns, Join;
    var s := dt.SizeOf();
    RunsRoundTrip(CellsOf(values, s, n), s, 0);
    JoinCellsOf(values, s, n);
    assert values[..n * s] == values;
  }

  // ----- the loops

  method Encode(dt: DataType, values: seq<byte>, n: nat) returns (out: seq<byte>)
    requires Whole(values, dt.SizeOf(), n)
    ensures out == Encoded(dt, values, n)
  {
    hide ToLe, Cell, CellsOf, RunLength, EncodedRuns;
    var s := dt.SizeOf();
    ghost var cells := CellsOf(values, s, n);
    out := [];
    var i := 0;
    assert cells[0..] == cells;
    while i < n
      invariant 0 <= i <= n
      invariant out + EncodedRuns(cells[i..]) == EncodedRuns(cells)
    {
      CellsOfIndex(values, s, n, i);
      var value := Cell(values, s, i);
      var run := 1;
      while i + run < n && (CellFits(s, i + run, n); Cell(values, s, i + run) == value)
        invariant 1 <= run <= n - i
        invariant forall j :: i <= j < i + run ==> cells[j] == value
      {
        CellsOfIndex(values, s, n, i + run);
        run := run + 1;
      }
      if i + run < n { CellsOfIndex(values, s, n, i + run); }
      EncodedRunsStep(cells, i, run);
      assert out + (ToLe(run, 4) + value + EncodedRuns(cells[i + run..]))
          == (out + ToLe(run, 4) + value) + EncodedRuns(cells[i + run..]);
      out := out + ToLe(run, 4) + value;
      i := i + run;
    }
    EncodedRunsNone(cells[n..]);
    assert out + [] == out;
  }

  lemma EncodedRunsNone(cells: seq<seq<byte>>)
    requires cells == []
    ensures EncodedRuns(cells) == []
  {
  }

  lemma EncodedRunsStep(cells: seq<seq<byte>>, i: nat, run: nat)
    requires 1 <= run && i + run <= |cells|
    requires forall j :: i <= j < i + run ==> cells[j] == cells[i]
    requires i + run < |cells| ==> cells[i + run] != cells[i]
    ensures EncodedRuns(cells[i..]) == ToLe(run, 4) + cells[i] + EncodedRuns(cells[i + run..])
  {
    hide ToLe;
    RunLengthUnique(cells[i..], run);
    assert cells[i..][run..] == cells[i + run..];
  }

  lemma RunLengthUnique(cells: seq<seq<byte>>, n: nat)
    requires 1 <= n <= |cells|
    requires forall i :: 0 <= i < n ==> cells[i] == cells[0]
    requires n < |cells| ==> cells[n] != cells[0]
    ensures RunLength(cells) == n
  {
  }

  method Decode(dt: DataType, payload: seq<byte>, rows: nat) returns (r: Result<seq<byte>>)
    ensures r == Decoded(dt, payload, rows)
  {
    hide FromLe, DecodedFrom, Join, Prepend;
    var s := dt.SizeOf();
    var out, got, pos := [], 0, 0;
    ghost var cells: seq<seq<byte>> := [];
    NothingDecoded(DecodedFrom(payload, s, 0, rows));
    assert payload[0..] == payload;
    while got < rows
      invariant 0 <= pos <= |payload| && got >= 0
      invariant out == Join(cells)
      invariant DecodedFrom(payload, s, 0, rows) == Prepend(cells, DecodedFrom(payload[pos..], s, got, rows))
      decreases |payload| - pos
    {
      DecodedAt(payload, s, pos, got, rows);
      PrependError(cells, DecodedFrom(payload[pos..], s, got, rows));
      if pos + 4 + s > |payload| { return Err(Truncated); }
      var run := FromLe(payload[pos..pos + 4]);
      var value := payload[pos + 4..pos + 4 + s];
      pos, got := pos + 4 + s, got + run;
      if got > rows { return Err(RowCountMismatch); }
      PrependMore(cells, Repeat(value, run), DecodedFrom(payload[pos..], s, got, rows));
      ghost var was := cells;
      for k := 0 to run
        invariant cells == was + Repeat(value, k)
        invariant out == Join(cells)
      {
        assert was + Repeat(value, k + 1) == cells + [value];
        JoinCons(cells, value);
        out := out + value;
        cells := cells + [value];
      }
    }
    DecodedRest(payload, s, pos, got, rows);
    PrependError(cells, DecodedFrom(payload[pos..], s, got, rows));
    if pos != |payload| { return Err(Corrupt); }
    return Ok(out);
  }

  lemma NothingDecoded(r: Result<seq<seq<byte>>>)
    ensures Prepend([], r) == r && Join([]) == []
  {
  }

  lemma PrependError(a: seq<seq<byte>>, r: Result<seq<seq<byte>>>)
    ensures r.Err? ==> Prepend(a, r) == r
    ensures r == Ok([]) ==> Prepend(a, r) == Ok(a)
  {
    assert a + [] == a;
  }

  /** One pair of the payload. */
  lemma DecodedAt(payload: seq<byte>, s: nat, pos: nat, got: nat, rows: nat)
    requires pos <= |payload| && got < rows
    ensures var r := DecodedFrom(payload[pos..], s, got, rows);
            if pos + 4 + s > |payload| then r == Err(Truncated)
            else var run := FromLe(payload[pos..pos + 4]);
              if got + run > rows then r == Err(RowCountMismatch)
              else r == Prepend(Repeat(payload[pos + 4..pos + 4 + s], run), DecodedFrom(payload[pos + 4 + s..], s, got + run, rows))
  {
    hide FromLe, Repeat;
    var rest := payload[pos..];
    if pos + 4 + s <= |payload| {
      assert rest[..4] == payload[pos..pos + 4] && rest[4..4 + s] == payload[pos + 4..pos + 4 + s] && rest[4 + s..] == payload[pos + 4 + s..];
    }
  }

  lemma DecodedRest(payload: seq<byte>, s: nat, pos: nat, got: nat, rows: nat)
    requires pos <= |payload| && got >= rows
    ensures DecodedFrom(payload[pos..], s, got, rows) == if pos == |payload| then Ok([]) else Err(Corrupt)
  {
  }

  ghost function Prepend(a: seq<seq<byte>>, r: Result<seq<seq<byte>>>): (q: Result<seq<seq<byte>>>)
    ensures a == [] ==> q == r
  {
    match r
    case Ok(b) => assert a == [] ==> a + b == b; Ok(a + b)
    case Err(e) => Err(e)
  }

  lemma PrependMore(a: seq<seq<byte>>, b: seq<seq<byte>>, r: Result<seq<seq<byte>>>)
    ensures Prepend(a, Prepend(b, r)) == Prepend(a + b, r)
  {
    if r.Ok? { assert a + (b + r.value) == (a + b) + r.value; }
  }
}
