/** DELTA: the first value, then wrapping differences at the native width. */
module Delta {
  import opened Bits
  import opened Cells
  import opened Formats

  /** Value `i`, zero-extended to a word. */
  function Word(v: seq<byte>, s: nat, i: nat): nat
    requires (i + 1) * s <= |v|
  {
    FromLe(Cell(v, s, i))
  }

  function DeltaWord(v: seq<byte>, s: nat, i: nat): nat
    requires (i + 1) * s <= |v|
  {
    if i == 0 then Word(v, s, 0) else
      CellFits(s, i - 1, i + 1);
      (Word(v, s, i) - Word(v, s, i - 1)) % TWO_64
  }

  function EncodedCells(v: seq<byte>, s: nat, n: nat): (r: seq<seq<byte>>)
    requires n * s <= |v|
    ensures |r| == n && forall i :: 0 <= i < n ==> |r[i]| == s
  {
    if n == 0 then [] else
      CellFits(s, n - 1, n);
      EncodedCells(v, s, n - 1) + [ToLe(DeltaWord(v, s, n - 1), s)]
  }

  lemma {:induction false} EncodedCellsIndex(v: seq<byte>, s: nat, n: nat, i: nat)
    requires n * s <= |v| && i < n
    ensures (i + 1) * s <= |v|
    ensures EncodedCells(v, s, n)[i] == ToLe(DeltaWord(v, s, i), s)
  {
    CellFits(s, i, n);
    CellFits(s, n - 1, n);
    if i < n - 1 { EncodedCellsIndex(v, s, n - 1, i); }
  }

  /** The decoder's running word after row `i`, at 64 bits. */
  function Running(p: seq<byte>, s: nat, i: nat): nat
    requires (i + 1) * s <= |p|
  {
    if i == 0 then Word(p, s, 0) else
      CellFits(s, i - 1, i + 1);
      (Running(p, s, i - 1) + Word(p, s, i)) % TWO_64
  }

  function DecodedCells(p: seq<byte>, s: nat, n: nat): (r: seq<seq<byte>>)
    requires n * s <= |p|
    ensures |r| == n && forall i :: 0 <= i < n ==> |r[i]| == s
  {
    if n == 0 then [] else
      CellFits(s, n - 1, n);
      DecodedCells(p, s, n - 1) + [ToLe(Running(p, s, n - 1), s)]
  }

  lemma {:induction false} DecodedCellsIndex(p: seq<byte>, s: nat, n: nat, i: nat)
    requires n * s <= |p| && i < n
    ensures (i + 1) * s <= |p|
    ensures DecodedCells(p, s, n)[i] == ToLe(Running(p, s, i), s)
  {
    CellFits(s, i, n);
    CellFits(s, n - 1, n);
    if i < n - 1 { DecodedCellsIndex(p, s, n - 1, i); }
  }

  function Encoded(dt: DataType, values: seq<byte>, n: nat): seq<byte>
    requires n * dt.SizeOf() <= |values|
  {
    Join(EncodedCells(values, dt.SizeOf(), n))
  }

  function Decoded(dt: DataType, payload: seq<byte>, rows: nat): Result<seq<byte>> {
    if |payload| != rows * dt.SizeOf() then Err(RowCountMismatch)
    else Ok(Join(DecodedCells(payload, dt.SizeOf(), rows)))
  }

  // ----- the word arithmetic agrees modulo the native width

  lemma ModOfMod(x: int, p: nat, k: nat)
    requires p > 0 && k > 0
    ensures p * k > 0 && x % (p * k) % p == x % p
  {
    MulAtLeast(p, k);
    var m := p * k;
    var q := x / m;
    assert x == m * q + x % m;
    Reassociate(p, k, q);
    ModShift(x % m, k * q, p);
  }

  lemma Reassociate(p: int, k: int, q: int)
    ensures p * k * q == k * q * p
  {
  }

  /** Sums agree modulo `p` when the parts do. */
  lemma ModSum(x: int, y: int, p: nat)
    requires p > 0
    ensures (x + y % p) % p == (x + y) % p
  {
    assert x + y == (x + y % p) + (y / p) * p;
    ModShift(x + y % p, y / p, p);
  }

  lemma DeltaStep(prev: nat, a: nat, b: nat, p: nat, k: nat)
    requires p > 0 && k > 0 && p * k == TWO_64
    requires prev % p == a && b < p
    ensures (prev + (b - a) % TWO_64 % p) % TWO_64 % p == b
  {
    ModOfMod(b - a, p, k);
    ModOfMod(prev + (b - a) % p, p, k);
    ModSum(prev, b - a, p);
    ModSum(b - a, prev, p);
    ModUnique(b, p, 0, b);
  }

  lemma Width(s: nat)
    requires s == 1 || s == 2 || s == 4 || s == 8
    ensures Pow2(8 * s) * Pow2(64 - 8 * s) == TWO_64
  {
    Pow2Add(8 * s, 64 - 8 * s);
    Pow2Values();
  }

  /** The 64-bit running word is the value modulo `2^(8s)`. */
  lemma {:induction false} RunningValue(v: seq<byte>, s: nat, n: nat, i: nat)
    requires s == 1 || s == 2 || s == 4 || s == 8
    requires n * s <= |v| && i < n
    ensures (i + 1) * s <= |v| && (i + 1) * s <= |Join(EncodedCells(v, s, n))|
    ensures Running(Join(EncodedCells(v, s, n)), s, i) % Pow2(8 * s) == Word(v, s, i)
  {
    hide FromLe, ToLe, Pow2, Join, EncodedCells;
    var p, cells := Pow2(8 * s), EncodedCells(v, s, n);
    JoinCell(cells, s, i);
    EncodedCellsIndex(v, s, n, i);
    FromToLe(DeltaWord(v, s, i), s);
    ToFromLe(Cell(v, s, i));
    var b := Word(v, s, i);
    if i == 0 {
      ModUnique(b, p, 0, b);
    } else {
      CellFits(s, i - 1, i + 1);
      RunningValue(v, s, n, i - 1);
      Width(s);
      DeltaStep(Running(Join(cells), s, i - 1), Word(v, s, i - 1), b, p, Pow2(64 - 8 * s));
    }
  }

  /** DELTA loses nothing: truncation and wrapping arithmetic commute. */
  lemma RoundTrip(dt: DataType, values: seq<byte>, n: nat)
    requires Whole(values, dt.SizeOf(), n)
    ensures Decoded(dt, Encoded(dt, values, n), n) == Ok(values)
  {
    hide FromLe, ToLe, Pow2, Join, EncodedCells, DecodedCells, Running;
    var s := dt.SizeOf();
    var payload := Encoded(dt, values, n);
    JoinLength(EncodedCells(values, s, n), s);
    var cells := DecodedCells(payload, s, n);
    forall i | 0 <= i < n
      ensures cells[i] == CellsOf(values, s, n)[i]
    {
      CellFits(s, i, n);
      RunningValue(values, s, n, i);
      DecodedCellsIndex(payload, s, n, i);
      ToLeMod(Running(payload, s, i), s);
      ToFromLe(Cell(values, s, i));
      CellsOfIndex(values, s, n, i);
    }
    assert cells == CellsOf(values, s, n);
    JoinCellsOf(values, s, n);
    assert values[..n * s] == values;
  }

  // ----- the loops

  lemma JoinNone()
    ensures Join([]) == []
  {
  }

  method Encode(dt: DataType, values: seq<byte>, n: nat) returns (out: seq<byte>)
    requires Whole(values, dt.SizeOf(), n)
    ensures out == Encoded(dt, values, n)
  {
    hide Join, ToLe, FromLe;
    var s := dt.SizeOf();
    out := [];
    JoinNone();
    for i := 0 to n
      invariant i * s <= |values|
      invariant out == Join(EncodedCells(values, s, i))
    {
      CellFits(s, i, n);
      var word := Word(values, s, i);
      if i > 0 {
        CellFits(s, i - 1, i + 1);
        word := (word - Word(values, s, i - 1)) % TWO_64;
      }
      JoinCons(EncodedCells(values, s, i), ToLe(word, s));
      out := out + ToLe(word, s);
    }
  }

  method Decode(dt: DataType, payload: seq<byte>, rows: nat) returns (r: Result<seq<byte>>)
    ensures r == Decoded(dt, payload, rows)
  {
    hide Join, ToLe, FromLe;
    var s := dt.SizeOf();
    if |payload| != rows * s { return Err(RowCountMismatch); }
    var out, prev := [], 0;
    JoinNone();
    for i := 0 to rows
      invariant i * s <= |payload|
      invariant out == Join(DecodedCells(payload, s, i))
      invariant i > 0 ==> prev == Running(payload, s, i - 1)
    {
      CellFits(s, i, rows);
      var delta := Word(payload, s, i);
      var value := if i == 0 then delta else (prev + delta) % TWO_64;
      JoinCons(DecodedCells(payload, s, i), ToLe(value, s));
      out := out + ToLe(value, s);
      prev := value;
    }
    return Ok(out);
  }
}
