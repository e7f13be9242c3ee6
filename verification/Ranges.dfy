/** Row ranges: `offset` and `length`, and the lists every scan produces. */
module Ranges {
  import opened Formats
  import opened Order

  datatype RowRange = RowRange(offset: nat, length: nat) {
    function End(): nat { offset + length }

    predicate Contains(row: nat) { offset <= row < End() }

    function Intersect(other: RowRange): (r: seq<RowRange>)
      ensures |r| <= 1
      ensures forall row: nat :: (|r| == 1 && r[0].Contains(row)) <==> Contains(row) && other.Contains(row)
      ensures |r| == 1 ==> r[0].length > 0
    {
      var start := if offset > other.offset then offset else other.offset;
      var end := if End() < other.End() then End() else other.End();
      if end > start then [RowRange(start, end - start)] else []
    }
  }

  predicate Covers(rs: seq<RowRange>, row: nat) {
    exists i :: 0 <= i < |rs| && rs[i].Contains(row)
  }

  predicate NonEmpty(rs: seq<RowRange>) {
    forall i :: 0 <= i < |rs| ==> rs[i].length > 0
  }

  /** Non-empty ranges in order, none overlapping. */
  predicate SortedDisjoint(rs: seq<RowRange>) {
    && NonEmpty(rs)
    && forall i, j :: 0 <= i < j < |rs| ==> rs[i].End() <= rs[j].offset
  }

  /** As `SortedDisjoint`, with a gap between neighbours. */
  predicate Canonical(rs: seq<RowRange>) {
    NonEmpty(rs) && Gapped(rs)
  }

  predicate Gapped(rs: seq<RowRange>) {
    forall i, j :: 0 <= i < j < |rs| ==> rs[i].End() < rs[j].offset
  }

  // ----- the rows of a list, one by one

  function Span(offset: nat, length: nat): (r: seq<nat>)
    ensures |r| == length && forall i :: 0 <= i < length ==> r[i] == offset + i
  {
    seq(length, i requires 0 <= i < length => offset + i)
  }

  function RowsOf(rs: seq<RowRange>): seq<nat> {
    if rs == [] then [] else RowsOf(rs[..|rs| - 1]) + Span(rs[|rs| - 1].offset, rs[|rs| - 1].length)
  }

  lemma {:induction false} RowsOfMember(rs: seq<RowRange>, row: nat)
    ensures row in RowsOf(rs) <==> Covers(rs, row)
  {
    if rs != [] {
      var n := |rs| - 1;
      RowsOfMember(rs[..n], row);
      var last := Span(rs[n].offset, rs[n].length);
      if rs[n].Contains(row) { assert last[row - rs[n].offset] == row; }
      if Covers(rs[..n], row) {
        var i :| 0 <= i < n && rs[..n][i].Contains(row);
        assert rs[i].Contains(row);
      }
      if Covers(rs, row) && !rs[n].Contains(row) {
        var i :| 0 <= i < |rs| && rs[i].Contains(row);
        assert rs[..n][i].Contains(row);
      }
    }
  }

  lemma {:induction false} RowsOfIncreasing(rs: seq<RowRange>)
    requires SortedDisjoint(rs)
    ensures Increasing(RowsOf(rs))
  {
    if rs != [] {
      var n := |rs| - 1;
      RowsOfIncreasing(rs[..n]);
      var a, b := RowsOf(rs[..n]), Span(rs[n].offset, rs[n].length);
      forall i, j | 0 <= i < |a| && 0 <= j < |b|
        ensures a[i] < b[j]
      {
        RowsOfMember(rs[..n], a[i]);
        assert a[i] in a;
        var k :| 0 <= k < n && rs[..n][k].Contains(a[i]);
        assert rs[k].End() <= rs[n].offset;
      }
    }
  }

  lemma {:induction false} RowsOfAppend(a: seq<RowRange>, b: seq<RowRange>)
    ensures RowsOf(a + b) == RowsOf(a) + RowsOf(b)
  {
    if b == [] { assert a + b == a; }
    else {
      assert (a + b)[..|a + b| - 1] == a + b[..|b| - 1];
      RowsOfAppend(a, b[..|b| - 1]);
    }
  }

  // ----- sorting by (offset, end), as the library's stable sort does

  predicate Before(a: RowRange, b: RowRange) {
    a.offset < b.offset || (a.offset == b.offset && a.End() <= b.End())
  }

  predicate Sorted(rs: seq<RowRange>) {
    forall i, j :: 0 <= i < j < |rs| ==> Before(rs[i], rs[j])
  }

  function Insert(r: RowRange, rs: seq<RowRange>): seq<RowRange> {
    if rs == [] then [r]
    else if Before(rs[0], r) then [rs[0]] + Insert(r, rs[1..])
    else [r] + rs
  }

  function SortRanges(rs: seq<RowRange>): seq<RowRange> {
    if rs == [] then [] else Insert(rs[|rs| - 1], SortRanges(rs[..|rs| - 1]))
  }

  lemma {:induction false} InsertMembers(r: RowRange, rs: seq<RowRange>)
    ensures multiset(Insert(r, rs)) == multiset(rs) + multiset{r}
  {
    if rs != [] {
      assert rs == [rs[0]] + rs[1..];
      if Before(rs[0], r) { InsertMembers(r, rs[1..]); }
    }
  }

  lemma {:induction false} InsertSorted(r: RowRange, rs: seq<RowRange>)
    requires Sorted(rs)
    ensures Sorted(Insert(r, rs))
  {
    if rs != [] && Before(rs[0], r) {
      InsertSorted(r, rs[1..]);
      InsertMembers(r, rs[1..]);
      var t := Insert(r, rs[1..]);
      forall j | 0 <= j < |t|
        ensures Before(rs[0], t[j])
      {
        assert t[j] in multiset(t);
      }
    }
  }

  lemma {:induction false} SortRangesSorts(rs: seq<RowRange>)
    ensures Sorted(SortRanges(rs))
    ensures multiset(SortRanges(rs)) == multiset(rs)
  {
    if rs != [] {
      var n := |rs| - 1;
      assert rs == rs[..n] + [rs[n]];
      SortRangesSorts(rs[..n]);
      InsertSorted(rs[n], SortRanges(rs[..n]));
      InsertMembers(rs[n], SortRanges(rs[..n]));
    }
  }

  lemma SameRangesSameRows(a: seq<RowRange>, b: seq<RowRange>)
    requires multiset(a) == multiset(b)
    ensures forall row: nat :: Covers(a, row) <==> Covers(b, row)
    ensures NonEmpty(a) <==> NonEmpty(b)
  {
    forall r: RowRange
      ensures r in a <==> r in b
    {
      assert r in a <==> r in multiset(a);
      assert r in b <==> r in multiset(b);
    }
    forall row: nat
      ensures Covers(a, row) <==> Covers(b, row)
    {
      if Covers(a, row) { var i :| 0 <= i < |a| && a[i].Contains(row); assert a[i] in b; }
      if Covers(b, row) { var i :| 0 <= i < |b| && b[i].Contains(row); assert b[i] in a; }
    }
    if NonEmpty(a) { forall i | 0 <= i < |b| ensures b[i].length > 0 { assert b[i] in a; } }
    if NonEmpty(b) { forall i | 0 <= i < |a| ensures a[i].length > 0 { assert a[i] in b; } }
  }

  // ----- merging

  /** Sorts, then joins every range that touches or overlaps the last one kept. */
  method MergeRanges(ranges: seq<RowRange>) returns (out: seq<RowRange>)
    ensures Gapped(out)
    ensures NonEmpty(ranges) ==> Canonical(out)
    ensures forall row: nat :: Covers(out, row) <==> Covers(ranges, row)
  {
    if |ranges| <= 1 { return ranges; }
    var sorted := SortRanges(ranges);
    SortRangesSorts(ranges);
    SameRangesSameRows(sorted, ranges);
    out := MergeSorted(sorted);
  }

  method MergeSorted(sorted: seq<RowRange>) returns (out: seq<RowRange>)
    requires Sorted(sorted)
    ensures Gapped(out)
    ensures NonEmpty(sorted) ==> Canonical(out)
    ensures forall row: nat :: Covers(out, row) <==> Covers(sorted, row)
  {
    hide Covers;
    out := [];
    NoneCovers(sorted[..0]);
    for i := 0 to |sorted|
      invariant Gapped(out) && (NonEmpty(sorted) ==> NonEmpty(out))
      invariant i == 0 ==> out == []
      invariant i > 0 ==> out != [] && out[|out| - 1].offset <= sorted[i - 1].offset
      invariant forall row: nat :: Covers(out, row) <==> Covers(sorted[..i], row)
    {
      var r := sorted[i];
      ghost var was := out;
      assert i > 0 ==> Before(sorted[i - 1], r);
      if out != [] && r.offset <= out[|out| - 1].End() {
        var n := |out| - 1;
        var last := out[n];
        var length := if last.length > r.End() - last.offset then last.length else r.End() - last.offset;
        out := out[n := RowRange(last.offset, length)];
        MergeInto(was, out, r);
      } else {
        out := out + [r];
        AppendCovers(was, r);
      }
      assert sorted[..i + 1] == sorted[..i] + [r];
      AppendCovers(sorted[..i], r);
    }
    assert sorted[..|sorted|] == sorted;
  }

  lemma NoneCovers(rs: seq<RowRange>)
    requires rs == []
    ensures forall row: nat :: !Covers(rs, row)
  {
  }

  lemma AppendCovers(rs: seq<RowRange>, r: RowRange)
    ensures forall row: nat :: Covers(rs + [r], row) <==> Covers(rs, row) || r.Contains(row)
  {
    forall row: nat
      ensures Covers(rs + [r], row) <==> Covers(rs, row) || r.Contains(row)
    {
      if Covers(rs, row) { var i :| 0 <= i < |rs| && rs[i].Contains(row); assert (rs + [r])[i].Contains(row); }
      if r.Contains(row) { assert (rs + [r])[|rs|].Contains(row); }
    }
  }

  lemma MergeInto(was: seq<RowRange>, out: seq<RowRange>, r: RowRange)
    requires was != [] && Gapped(was)
    requires was[|was| - 1].offset <= r.offset <= was[|was| - 1].End()
    requires var last := was[|was| - 1];
             out == was[|was| - 1 := RowRange(last.offset,
               if last.length > r.End() - last.offset then last.length else r.End() - last.offset)]
    ensures Gapped(out) && (NonEmpty(was) ==> NonEmpty(out))
    ensures forall row: nat :: Covers(out, row) <==> Covers(was, row) || r.Contains(row)
  {
    var n := |was| - 1;
    forall row: nat
      ensures Covers(out, row) <==> Covers(was, row) || r.Contains(row)
    {
      assert out[n].Contains(row) <==> was[n].Contains(row) || r.Contains(row);
      if Covers(out, row) {
        var i :| 0 <= i < |out| && out[i].Contains(row);
        assert i < n ==> was[i].Contains(row);
      }
      if Covers(was, row) {
        var i :| 0 <= i < |was| && was[i].Contains(row);
        assert i < n ==> out[i].Contains(row);
      }
    }
  }

  /** A canonical list is determined by the rows it covers. */
  lemma {:induction false} CanonicalUnique(a: seq<RowRange>, b: seq<RowRange>)
    requires Canonical(a) && Canonical(b)
    requires forall row: nat :: Covers(a, row) <==> Covers(b, row)
    ensures a == b
    decreases |a|
  {
    assert b != [] ==> b[0].Contains(b[0].offset) && Covers(b, b[0].offset);
    if a == [] {
    } else {
      assert a[0].Contains(a[0].offset);
      assert Covers(a, a[0].offset);
      assert b != [];
      HeadsAgree(a, b);
      forall row: nat
        ensures Covers(a[1..], row) <==> Covers(b[1..], row)
      {
        TailCovers(a, row);
        TailCovers(b, row);
      }
      CanonicalUnique(a[1..], b[1..]);
    }
  }

  lemma TailCovers(a: seq<RowRange>, row: nat)
    requires Canonical(a) && a != []
    ensures Covers(a[1..], row) <==> Covers(a, row) && row >= a[0].End()
  {
    if Covers(a[1..], row) {
      var i :| 0 <= i < |a| - 1 && a[1..][i].Contains(row);
      assert a[i + 1].Contains(row);
    }
    if Covers(a, row) && row >= a[0].End() {
      var i :| 0 <= i < |a| && a[i].Contains(row);
      assert a[1..][i - 1].Contains(row);
    }
  }

  lemma HeadsAgree(a: seq<RowRange>, b: seq<RowRange>)
    requires Canonical(a) && Canonical(b) && a != [] && b != []
    requires forall row: nat :: Covers(a, row) <==> Covers(b, row)
    ensures a[0] == b[0]
  {
    StartsNoLater(a, b);
    StartsNoLater(b, a);
    EndsNoLater(a, b);
    EndsNoLater(b, a);
  }

  lemma StartsNoLater(a: seq<RowRange>, b: seq<RowRange>)
    requires Canonical(a) && Canonical(b) && a != [] && b != []
    requires forall row: nat :: Covers(a, row) <==> Covers(b, row)
    ensures a[0].offset <= b[0].offset
  {
    var x := b[0].offset;
    assert b[0].Contains(x);
    assert Covers(a, x);
    var i :| 0 <= i < |a| && a[i].Contains(x);
  }

  lemma GapAfterHead(a: seq<RowRange>)
    requires Canonical(a) && a != []
    ensures !Covers(a, a[0].End())
  {
  }

  lemma EndsNoLater(a: seq<RowRange>, b: seq<RowRange>)
    requires Canonical(a) && Canonical(b) && a != [] && b != []
    requires a[0].offset == b[0].offset
    requires forall row: nat :: Covers(a, row) <==> Covers(b, row)
    ensures a[0].End() <= b[0].End()
  {
    GapAfterHead(b);
    assert a[0].End() > b[0].End() ==> a[0].Contains(b[0].End());
  }

  /** Merging is a canonical form: two lists merge to equal results exactly when they
      cover the same rows. */
  lemma MergedEqualIff(a: seq<RowRange>, b: seq<RowRange>, ma: seq<RowRange>, mb: seq<RowRange>)
    requires Canonical(ma) && Canonical(mb)
    requires forall row: nat :: Covers(ma, row) <==> Covers(a, row)
    requires forall row: nat :: Covers(mb, row) <==> Covers(b, row)
    ensures ma == mb <==> forall row: nat :: Covers(a, row) <==> Covers(b, row)
  {
    if ma == mb {
      forall row: nat
        ensures Covers(a, row) <==> Covers(b, row)
      {
        assert Covers(ma, row) <==> Covers(a, row);
        assert Covers(mb, row) <==> Covers(b, row);
      }
    }
    if forall row: nat :: Covers(a, row) <==> Covers(b, row) { CanonicalUnique(ma, mb); }
  }

  // ----- clamping and intersecting

  /** Ranges cut to `[0, bound)` and merged; no ranges at all stands for everything. */
  method ClampRanges(ranges: seq<RowRange>, bound: nat) returns (out: seq<RowRange>)
    ensures Canonical(out)
    ensures forall row: nat :: Covers(out, row) <==> row < bound && (ranges == [] || Covers(ranges, row))
  {
    var full := RowRange(0, bound);
    var source := if ranges == [] then [full] else ranges;
    var clipped := [];
    for i := 0 to |source|
      invariant NonEmpty(clipped)
      invariant forall row: nat :: Covers(clipped, row) <==> row < bound && Covers(source[..i], row)
    {
      assert source[..i + 1] == source[..i] + [source[i]];
      AppendCovers(source[..i], source[i]);
      var part := source[i].Intersect(full);
      if |part| == 1 { AppendCovers(clipped, part[0]); assert part == [part[0]]; }
      else { assert clipped + part == clipped; }
      clipped := clipped + part;
    }
    assert source[..|source|] == source;
    out := MergeRanges(clipped);
    if ranges == [] {
      forall row: nat | row < bound
        ensures Covers(source, row)
      {
        assert source[0].Contains(row);
      }
    }
  }

  /** Two cursors over two sorted lists, advancing the one whose range ends first. */
  method IntersectRangeLists(a: seq<RowRange>, b: seq<RowRange>) returns (out: seq<RowRange>)
    requires SortedDisjoint(a) && SortedDisjoint(b)
    ensures SortedDisjoint(out)
    ensures Canonical(a) && Canonical(b) ==> Canonical(out)
    ensures forall row: nat :: Covers(out, row) <==> Covers(a, row) && Covers(b, row)
  {
    hide Covers, SortedDisjoint, Canonical, Behind;
    out := [];
    var i, j := 0, 0;
    IntersectStart(a, b);
    while i < |a| && j < |b|
      invariant 0 <= i <= |a| && 0 <= j <= |b|
      invariant Behind(out, a, b, i, j)
      invariant forall row: nat :: Covers(out, row) || (Covers(a[i..], row) && Covers(b[j..], row))
                               <==> Covers(a, row) && Covers(b, row)
      decreases |a| - i + |b| - j
    {
      var lo := if a[i].offset > b[j].offset then a[i].offset else b[j].offset;
      var hi := if a[i].End() < b[j].End() then a[i].End() else b[j].End();
      ghost var was := out;
      if hi > lo {
        out := out + [RowRange(lo, hi - lo)];
      }
      CursorStep(a, b, i, j, was, out);
      BehindStep(a, b, i, j, was, out);
      if a[i].End() <= b[j].End() { i := i + 1; } else { j := j + 1; }
    }
    IntersectEnd(a, b, i, j, out);
  }

  /** The emitted list is in order, and ends no later than what both cursors can still emit. */
  ghost predicate Behind(out: seq<RowRange>, a: seq<RowRange>, b: seq<RowRange>, i: nat, j: nat)
    requires i <= |a| && j <= |b|
  {
    && SortedDisjoint(out)
    && (Canonical(a) && Canonical(b) ==> Canonical(out))
    && (i < |a| && j < |b| && out != [] ==>
          var e := out[|out| - 1].End();
          && (e <= a[i].offset || e <= b[j].offset)
          && (Canonical(a) && Canonical(b) ==> e < a[i].offset || e < b[j].offset))
  }

  lemma IntersectStart(a: seq<RowRange>, b: seq<RowRange>)
    ensures Behind([], a, b, 0, 0)
    ensures forall row: nat :: Covers([], row) || (Covers(a[0..], row) && Covers(b[0..], row)) <==> Covers(a, row) && Covers(b, row)
  {
    assert a[0..] == a && b[0..] == b;
  }

  lemma IntersectEnd(a: seq<RowRange>, b: seq<RowRange>, i: nat, j: nat, out: seq<RowRange>)
    requires i <= |a| && j <= |b| && (i == |a| || j == |b|)
    requires Behind(out, a, b, i, j)
    ensures SortedDisjoint(out) && (Canonical(a) && Canonical(b) ==> Canonical(out))
    ensures forall row: nat :: !(Covers(a[i..], row) && Covers(b[j..], row))
  {
  }

  lemma AppendSorted(rs: seq<RowRange>, r: RowRange)
    requires r.length > 0
    ensures SortedDisjoint(rs) && (rs == [] || rs[|rs| - 1].End() <= r.offset) ==> SortedDisjoint(rs + [r])
    ensures Canonical(rs) && (rs == [] || rs[|rs| - 1].End() < r.offset) ==> Canonical(rs + [r])
  {
    if rs != [] {
      assert rs[|rs| - 1].offset <= rs[|rs| - 1].End();
      if SortedDisjoint(rs) { assert forall i :: 0 <= i < |rs| ==> rs[i].End() <= rs[|rs| - 1].End(); }
      if Canonical(rs) { assert forall i :: 0 <= i < |rs| ==> rs[i].End() <= rs[|rs| - 1].End(); }
    }
  }

  lemma BehindStep(a: seq<RowRange>, b: seq<RowRange>, i: nat, j: nat, was: seq<RowRange>, out: seq<RowRange>)
    requires SortedDisjoint(a) && SortedDisjoint(b) && i < |a| && j < |b|
    requires Behind(was, a, b, i, j)
    requires var lo := if a[i].offset > b[j].offset then a[i].offset else b[j].offset;
             var hi := if a[i].End() < b[j].End() then a[i].End() else b[j].End();
             out == if hi > lo then was + [RowRange(lo, hi - lo)] else was
    ensures a[i].End() <= b[j].End() ==> Behind(out, a, b, i + 1, j)
    ensures a[i].End() > b[j].End() ==> Behind(out, a, b, i, j + 1)
  {
    if out != was { AppendSorted(was, out[|was|]); }
    NextAfter(a, i);
    NextAfter(b, j);
    hide SortedDisjoint, Canonical;
  }

  lemma NextAfter(a: seq<RowRange>, i: nat)
    requires SortedDisjoint(a) && i < |a|
    ensures i + 1 < |a| ==> a[i].End() <= a[i + 1].offset
    ensures i + 1 < |a| && Canonical(a) ==> a[i].End() < a[i + 1].offset
  {
  }

  lemma SuffixCovers(a: seq<RowRange>, i: nat, row: nat)
    requires i < |a|
    ensures Covers(a[i..], row) <==> a[i].Contains(row) || Covers(a[i + 1..], row)
  {
    if a[i].Contains(row) { assert a[i..][0].Contains(row); }
    if Covers(a[i + 1..], row) {
      var k :| 0 <= k < |a| - i - 1 && a[i + 1..][k].Contains(row);
      assert a[i..][k + 1].Contains(row);
    }
    if Covers(a[i..], row) && !a[i].Contains(row) {
      var k :| 0 <= k < |a| - i && a[i..][k].Contains(row);
      assert a[i + 1..][k - 1].Contains(row);
    }
  }

  lemma NothingBefore(a: seq<RowRange>, i: nat, row: nat)
    requires SortedDisjoint(a) && i < |a| && row < a[i].End()
    ensures !Covers(a[i + 1..], row)
  {
  }

  /** Dropping the range that ends first loses no common row but the one emitted. */
  lemma CursorStep(a: seq<RowRange>, b: seq<RowRange>, i: nat, j: nat, was: seq<RowRange>, out: seq<RowRange>)
    requires SortedDisjoint(a) && SortedDisjoint(b) && i < |a| && j < |b|
    requires var lo := if a[i].offset > b[j].offset then a[i].offset else b[j].offset;
             var hi := if a[i].End() < b[j].End() then a[i].End() else b[j].End();
             out == if hi > lo then was + [RowRange(lo, hi - lo)] else was
    ensures a[i].End() <= b[j].End() ==> forall row: nat ::
              Covers(was, row) || (Covers(a[i..], row) && Covers(b[j..], row)) <==>
              Covers(out, row) || (Covers(a[i + 1..], row) && Covers(b[j..], row))
    ensures a[i].End() > b[j].End() ==> forall row: nat ::
              Covers(was, row) || (Covers(a[i..], row) && Covers(b[j..], row)) <==>
              Covers(out, row) || (Covers(a[i..], row) && Covers(b[j + 1..], row))
  {
    forall row: nat
      ensures Covers(out, row) <==> Covers(was, row) || (a[i].Contains(row) && b[j].Contains(row))
    {
      if out != was { AppendCovers(was, out[|was|]); }
    }
    forall row: nat
      ensures Covers(a[i..], row) <==> a[i].Contains(row) || Covers(a[i + 1..], row)
      ensures Covers(b[j..], row) <==> b[j].Contains(row) || Covers(b[j + 1..], row)
      ensures row < a[i].End() ==> !Covers(a[i + 1..], row)
      ensures row < b[j].End() ==> !Covers(b[j + 1..], row)
    {
      SuffixCovers(a, i, row);
      SuffixCovers(b, j, row);
      if row < a[i].End() { NothingBefore(a, i, row); }
      if row < b[j].End() { NothingBefore(b, j, row); }
    }
  }

  // ----- limits

  /** At most the first `limit` elements. */
  function Take<T>(s: seq<T>, limit: Option<nat>): seq<T> {
    if limit.Some? && limit.value < |s| then s[..limit.value] else s
  }

  lemma RowsOfEmpty()
    ensures RowsOf([]) == []
  {
  }

  lemma RowsOfHead(rs: seq<RowRange>, i: nat)
    requires i < |rs|
    ensures RowsOf(rs[i..]) == Span(rs[i].offset, rs[i].length) + RowsOf(rs[i + 1..])
  {
    assert rs[i..] == [rs[i]] + rs[i + 1..];
    RowsOfAppend([rs[i]], rs[i + 1..]);
    assert [rs[i]][..0] == [];
    RowsOfEmpty();
    assert RowsOf([rs[i]]) == [] + Span(rs[i].offset, rs[i].length);
  }
}
