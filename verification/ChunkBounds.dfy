/** Where a column is cut into chunks. */
module ChunkBounds {
  import opened Bitmap
  import opened ChunkStream
  import opened FieldFiles
  import opened Formats
  import opened Order

  /** The first row of each chunk. */
  function Starts(lens: seq<nat>): (r: seq<nat>)
    ensures |r| == |lens| && forall i :: 0 <= i < |lens| ==> r[i] == Sum(lens[..i])
  {
    seq(|lens|, i requires 0 <= i < |lens| => Sum(lens[..i]))
  }

  /** The list, as given, begins at row 0 and stays inside the column. */
  predicate OffsetsValid(rows: nat, offsets: Option<seq<nat>>) {
    offsets.Some? ==> offsets.value != [] && offsets.value[0] == 0 && forall o :: o in offsets.value ==> o < rows
  }

  /** Chunk lengths for the given start rows (any order, repeats allowed), or even ones. */
  method ChunkBoundaries(rows: nat, offsets: Option<seq<nat>>) returns (r: Result<seq<nat>>)
    ensures r.Ok? <==> OffsetsValid(rows, offsets)
    ensures r.Ok? ==> Sum(r.value) == rows && forall i :: 0 <= i < |r.value| ==> r.value[i] > 0
    ensures r.Ok? && offsets.Some? ==> Starts(r.value) == SortDistinct(offsets.value)
    ensures r.Ok? && offsets.None? ==> r.value == EvenLens(rows)
  {
    if offsets.None? {
      var even := EvenCuts(rows);
      return Ok(even);
    }
    var list := offsets.value;
    if list == [] || list[0] != 0 { return Err(Invalid); }
    var sorted := SortDistinct(list);
    SortDistinctSorts(list);
    for i := 0 to |sorted|
      invariant forall k :: 0 <= k < i ==> sorted[k] < rows
    {
      if sorted[i] >= rows {
        assert sorted[i] in list;
        return Err(Invalid);
      }
    }
    forall o | o in list
      ensures o < rows
    {
      assert o in sorted;
    }
    ZeroFirst(sorted, list);
    var lens := Cuts(sorted, rows);
    return Ok(lens);
  }

  lemma ZeroFirst(sorted: seq<nat>, list: seq<nat>)
    requires Increasing(sorted) && (forall y: nat :: y in sorted <==> y in list) && list != [] && list[0] == 0
    ensures sorted != [] && sorted[0] == 0
  {
    assert 0 in sorted;
  }

  method EvenCuts(rows: nat) returns (lens: seq<nat>)
    ensures lens == EvenLens(rows) && Sum(lens) == rows && forall i :: 0 <= i < |lens| ==> lens[i] > 0
  {
    lens := [];
    var o := 0;
    EvenSum(rows);
    while o < rows
      invariant 0 <= o <= rows && lens + EvenLens(rows - o) == EvenLens(rows)
    {
      var n := Min(CREATE_CHUNK_ROWS, rows - o);
      lens := lens + [n];
      o := o + n;
    }
    assert lens + EvenLens(0) == lens;
  }

  /** Windows between neighbouring starts, and a last one to the end. */
  method Cuts(sorted: seq<nat>, rows: nat) returns (lens: seq<nat>)
    requires Increasing(sorted) && sorted != [] && sorted[0] == 0 && forall i :: 0 <= i < |sorted| ==> sorted[i] < rows
    ensures Sum(lens) == rows && Starts(lens) == sorted
    ensures forall i :: 0 <= i < |lens| ==> lens[i] > 0
  {
    hide Sum;
    lens := [];
    SumNone();
    for i := 1 to |sorted|
      invariant |lens| == i - 1 && Sum(lens) == sorted[i - 1]
      invariant Starts(lens) == sorted[..i - 1]
      invariant forall k :: 0 <= k < |lens| ==> lens[k] > 0
    {
      var n := sorted[i] - sorted[i - 1];
      StartsMore(lens, n);
      SumMore(lens, n);
      lens := lens + [n];
    }
    var last := sorted[|sorted| - 1];
    if last < rows {
      StartsMore(lens, rows - last);
      SumMore(lens, rows - last);
      lens := lens + [rows - last];
    }
  }

  lemma StartsMore(lens: seq<nat>, n: nat)
    ensures Starts(lens + [n]) == Starts(lens) + [Sum(lens)]
  {
    var a, b := Starts(lens + [n]), Starts(lens) + [Sum(lens)];
    forall i | 0 <= i < |a|
      ensures a[i] == b[i]
    {
      assert (lens + [n])[..i] == lens[..i];
      assert lens[..|lens|] == lens;
    }
  }
}
