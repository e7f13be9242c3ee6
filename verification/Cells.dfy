/** Fixed-width values laid end to end in a byte string. */
module Cells {
  import opened Bits

  /** The `i`-th value of width `s`. */
  function Cell(v: seq<byte>, s: nat, i: nat): (c: seq<byte>)
    requires (i + 1) * s <= |v|
    ensures |c| == s
  {
    assert i * s + s == (i + 1) * s;
    v[i * s..i * s + s]
  }

  /** `n` values of width `s` fill the string exactly. */
  predicate Whole(v: seq<byte>, s: nat, n: nat) {
    |v| == n * s
  }

  lemma CellFits(s: nat, i: nat, n: nat)
    requires i < n
    ensures (i + 1) * s <= n * s
  {
  }

  /** The values, as a list. */
  function CellsOf(v: seq<byte>, s: nat, n: nat): (r: seq<seq<byte>>)
    requires n * s <= |v|
    ensures |r| == n
    ensures forall i :: 0 <= i < n ==> |r[i]| == s
  {
    if n == 0 then [] else
      CellFits(s, n - 1, n);
      assert (n - 1) * s + s == n * s;
      CellsOf(v, s, n - 1) + [Cell(v, s, n - 1)]
  }

  lemma {:induction false} CellsOfIndex(v: seq<byte>, s: nat, n: nat, i: nat)
    requires n * s <= |v| && i < n
    ensures (i + 1) * s <= |v|
    ensures CellsOf(v, s, n)[i] == Cell(v, s, i)
  {
    CellFits(s, i, n);
    CellFits(s, n - 1, n);
    assert (n - 1) * s + s == n * s;
    if i < n - 1 { CellsOfIndex(v, s, n - 1, i); }
  }

  function Join(cells: seq<seq<byte>>): seq<byte> {
    if cells == [] then [] else Join(cells[..|cells| - 1]) + cells[|cells| - 1]
  }

  lemma {:induction false} JoinAppend(a: seq<seq<byte>>, b: seq<seq<byte>>)
    ensures Join(a + b) == Join(a) + Join(b)
  {
    if b == [] { assert a + b == a; }
    else {
      assert (a + b)[..|a + b| - 1] == a + b[..|b| - 1];
      JoinAppend(a, b[..|b| - 1]);
    }
  }

  lemma {:induction false} JoinLength(cells: seq<seq<byte>>, s: nat)
    requires forall i :: 0 <= i < |cells| ==> |cells[i]| == s
    ensures |Join(cells)| == |cells| * s
  {
    if cells != [] {
      JoinLength(cells[..|cells| - 1], s);
      assert (|cells| - 1) * s + s == |cells| * s;
    }
  }

  /** Splitting and joining are inverse. */
  lemma {:induction false} JoinCellsOf(v: seq<byte>, s: nat, n: nat)
    requires n * s <= |v|
    ensures Join(CellsOf(v, s, n)) == v[..n * s]
  {
    hide CellsOf, Join;
    if n > 0 {
      var a, b := (n - 1) * s, n * s;
      CellsOfMore(v, s, n - 1);
      JoinCellsOf(v, s, n - 1);
      JoinCons(CellsOf(v, s, n - 1), v[a..b]);
      assert v[..a] + v[a..b] == v[..b];
    } else {
      CellsOfNone(v, s);
    }
  }

  lemma CellsOfNone(v: seq<byte>, s: nat)
    ensures 0 * s == 0 && CellsOf(v, s, 0) == [] && Join([]) == []
  {
  }

  lemma CellsOfMore(v: seq<byte>, s: nat, n: nat)
    requires (n + 1) * s <= |v|
    ensures n * s + s == (n + 1) * s
    ensures CellsOf(v, s, n + 1) == CellsOf(v, s, n) + [v[n * s..(n + 1) * s]]
  {
  }

  lemma JoinCons(cells: seq<seq<byte>>, c: seq<byte>)
    ensures Join(cells + [c]) == Join(cells) + c
  {
    assert (cells + [c])[..|cells|] == cells;
  }

  lemma {:induction false} JoinCell(cells: seq<seq<byte>>, s: nat, i: nat)
    requires forall j :: 0 <= j < |cells| ==> |cells[j]| == s
    requires i < |cells|
    ensures (i + 1) * s <= |Join(cells)|
    ensures Cell(Join(cells), s, i) == cells[i]
  {
    hide Join;
    var n := |cells|;
    var front := cells[..n - 1];
    JoinLength(cells, s);
    JoinLength(front, s);
    CellFits(s, i, n);
    assert front + [cells[n - 1]] == cells;
    JoinCons(front, cells[n - 1]);
    if i < n - 1 {
      JoinCell(front, s, i);
    }
  }
}
