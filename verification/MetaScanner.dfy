/** Running an index scan: the compiled condition turned into row ranges, and the
    scanner that hands them out one at a time. */
module MetaScanner {
  import opened Formats
  import opened Order
  import opened Ranges
  import opened Meta
  import opened MetaLocate
  import opened Predicates
  import opened MetaScan

  // ----- compiling, step by step

  lemma LowerBoundIs(axis: seq<nat>, v: nat, n: nat)
    requires Increasing(axis) && n <= |axis|
    requires forall i :: 0 <= i < n ==> axis[i] < v
    requires forall i :: n <= i < |axis| ==> axis[i] >= v
    ensures n == LowerBound(axis, v)
  {
    if n < |axis| { LowerBoundSplits(axis, v, n); }
    if n > 0 { LowerBoundSplits(axis, v, n - 1); }
  }

  method BoundOf(idx: Index, v: nat) returns (n: nat)
    requires idx.Valid()
    ensures n == LowerBound(idx.axis, v)
  {
    n := AxisLowerBound(idx, v);
    LowerBoundIs(idx.axis, v, n);
  }

  method IdFor(idx: Index, s: Str) returns (r: Option<nat>)
    requires idx.Valid() && LexIncreasing(idx.names)
    ensures r == IdOf(idx.names, s)
  {
    r := SymIdOf(idx, s);
    if r.Some? { IdMeaning(idx.names, s, r.value); }
  }

  method CompileCmp(idx: Index, f: string, op: CmpOp, lit: Scalar, acc: Acc) returns (r: Acc)
    requires idx.Valid() && LexIncreasing(idx.names)
    ensures r == CompiledCmp(idx, f, op, lit, acc)
  {
    r := acc;
    if f == SYM {
      if op == Eq && lit.StrLit? {
        var id := IdFor(idx, lit.s);
        if id.None? { r := acc.(syms := Some([])); }
        else if acc.syms.None? { r := acc.(syms := Some([id.value])); }
        else { r := acc.(syms := Some(Retain(acc.syms.value, id.value))); }
      }
    } else if f == TIME {
      var v := Pattern(lit);
      if v.None? { return; }
      var lower := BoundOf(idx, v.value);
      var upper := BoundOf(idx, SaturatingNext(v.value));
      match op {
        case Eq => r := acc.(lo := Max(acc.lo, lower), hi := Min(acc.hi, upper));
        case Ge => r := acc.(lo := Max(acc.lo, lower));
        case Gt => r := acc.(lo := Max(acc.lo, upper));
        case Le => r := acc.(hi := Min(acc.hi, upper));
        case Lt => r := acc.(hi := Min(acc.hi, lower));
        case Ne =>
      }
    }
  }

  method CompileOr(idx: Index, cs: seq<Predicate>, acc: Acc) returns (r: Acc)
    requires idx.Valid() && LexIncreasing(idx.names)
    ensures r == CompiledOr(idx, cs, acc)
  {
    var ids := [];
    for i := 0 to |cs|
      invariant AllSymEq(cs[..i]) && ids == IdsOf(idx.names, cs[..i])
    {
      if !IsSymEq(cs[i]) {
        assert cs[i] in cs;
        return acc;
      }
      assert cs[..i + 1] == cs[..i] + [cs[i]] && cs[..i + 1][..i] == cs[..i];
      var id := IdFor(idx, cs[i].value.s);
      if id.Some? { ids := ids + [id.value]; } else { assert ids + [] == ids; }
    }
    assert cs[..|cs|] == cs;
    var sorted := SortIds(ids);
    if acc.syms.None? { r := acc.(syms := Some(sorted)); }
    else { r := acc.(syms := Some(SortDistinct(acc.syms.value + sorted))); }
  }

  method CompileNode(idx: Index, p: Predicate, acc: Acc) returns (r: Acc)
    requires idx.Valid() && LexIncreasing(idx.names)
    ensures r == Compiled(idx, p, acc)
    decreases p
  {
    hide CompiledCmp, CompiledOr;
    match p {
      case And(cs) =>
        r := acc;
        assert cs[0..] == cs;
        for i := 0 to |cs|
          invariant CompiledAll(idx, cs[i..], r) == CompiledAll(idx, cs, acc)
        {
          r := CompileNode(idx, cs[i], r);
          assert cs[i..][0] == cs[i] && cs[i..][1..] == cs[i + 1..];
        }
        assert cs[|cs|..] == [];
      case Or(cs) => r := CompileOr(idx, cs, acc);
      case Not(_) => r := acc;
      case Cmp(Some(f), op, lit) => r := CompileCmp(idx, f, op, lit, acc);
      case Cmp(None, _, _) => r := acc;
    }
  }

  // ----- ranges

  /** A symbol's share of the axis window, as rows; nothing when the window misses it. */
  function Share(rec: SymRecord, lo: nat, hi: nat): (r: seq<RowRange>)
    ensures |r| <= 1 && NonEmpty(r)
    ensures forall row: nat :: Covers(r, row) <==>
              rec.rowStart <= row < rec.RowEnd() && lo <= rec.timeStart + (row - rec.rowStart) < hi
  {
    var end := rec.timeStart + rec.timeCount;
    var wlo, whi := Min(Max(lo, rec.timeStart), end), Min(Max(hi, rec.timeStart), end);
    var r := if whi <= wlo then [] else [RowRange(rec.rowStart + (wlo - rec.timeStart), whi - wlo)];
    assert forall row: nat :: Covers(r, row) <==> wlo < whi && r[0].Contains(row) by {
      forall row: nat
        ensures Covers(r, row) <==> wlo < whi && r[0].Contains(row)
      {
      }
    }
    r
  }

  predicate IdsExist(idx: Index, ids: seq<nat>) {
    forall i :: 0 <= i < |ids| ==> ids[i] < |idx.recs|
  }

  /** The shares of a list of symbols. A limit stops the walk once enough rows are out. */
  function Shares(idx: Index, ids: seq<nat>, lo: nat, hi: nat, limit: Option<nat>, produced: nat): seq<RowRange>
    requires IdsExist(idx, ids)
  {
    if ids == [] || (limit.Some? && produced >= limit.value) then []
    else
      var s := Share(idx.recs[ids[0]], lo, hi);
      s + Shares(idx, ids[1..], lo, hi, limit, produced + (if s == [] then 0 else s[0].length))
  }

  lemma {:induction false} SharesCover(idx: Index, ids: seq<nat>, lo: nat, hi: nat, produced: nat, j: nat, k: nat)
    requires idx.Valid() && IdsExist(idx, ids)
    requires j < |idx.recs| && k < idx.recs[j].timeCount
    ensures Covers(Shares(idx, ids, lo, hi, None, produced), idx.recs[j].rowStart + k)
        <==> j in ids && lo <= idx.recs[j].timeStart + k < hi
  {
    hide Covers, Share;
    var row := idx.recs[j].rowStart + k;
    if ids == [] {
      NoneCovers([]);
    } else {
      var s := Share(idx.recs[ids[0]], lo, hi);
      var p := produced + (if s == [] then 0 else s[0].length);
      SharesCover(idx, ids[1..], lo, hi, p, j, k);
      ConcatCovers(s, Shares(idx, ids[1..], lo, hi, None, p), row);
      if idx.recs[ids[0]].rowStart <= row < idx.recs[ids[0]].RowEnd() { BlockUnique(idx, ids[0], j, row); }
      assert ids == [ids[0]] + ids[1..];
    }
  }

  lemma ConcatCovers(a: seq<RowRange>, b: seq<RowRange>, row: nat)
    ensures Covers(a + b, row) <==> Covers(a, row) || Covers(b, row)
  {
    if Covers(a, row) { var i :| 0 <= i < |a| && a[i].Contains(row); assert (a + b)[i].Contains(row); }
    if Covers(b, row) { var i :| 0 <= i < |b| && b[i].Contains(row); assert (a + b)[|a| + i].Contains(row); }
    if Covers(a + b, row) {
      var i :| 0 <= i < |a + b| && (a + b)[i].Contains(row);
      if i < |a| { assert a[i].Contains(row); } else { assert b[i - |a|].Contains(row); }
    }
  }

  lemma {:induction false} SharesFit(idx: Index, ids: seq<nat>, lo: nat, hi: nat, limit: Option<nat>, produced: nat)
    requires idx.Valid() && IdsExist(idx, ids)
    ensures NonEmpty(Shares(idx, ids, lo, hi, limit, produced))
    ensures forall row: nat :: Covers(Shares(idx, ids, lo, hi, limit, produced), row) ==> row < idx.RowCount()
  {
    hide Share, Covers;
    if ids == [] || (limit.Some? && produced >= limit.value) {
      NoneCovers([]);
    } else {
      var s := Share(idx.recs[ids[0]], lo, hi);
      var p := produced + (if s == [] then 0 else s[0].length);
      var rest := Shares(idx, ids[1..], lo, hi, limit, p);
      SharesFit(idx, ids[1..], lo, hi, limit, p);
      if ids[0] < |idx.recs| - 1 { BlocksOrdered(idx, ids[0], |idx.recs| - 1); }
      forall row: nat
        ensures Covers(s + rest, row) ==> row < idx.RowCount()
      {
        ConcatCovers(s, rest, row);
        }
    }
  }

  /** All symbols, in order. */
  function AllIds(n: nat): (r: seq<nat>)
    ensures |r| == n && forall i :: 0 <= i < n ==> r[i] == i
  {
    seq(n, i => i)
  }

  function IdList(idx: Index, acc: Acc): seq<nat> {
    match acc.syms case None => AllIds(|idx.recs|) case Some(ids) => ids
  }

  /** The symbols a compiled condition names exist. */
  lemma {:induction false} CompiledIds(idx: Index, p: Predicate, acc: Acc)
    requires acc.syms.Some? ==> forall j | j in acc.syms.value :: j < |idx.names|
    ensures Compiled(idx, p, acc).syms.Some? ==> forall j | j in Compiled(idx, p, acc).syms.value :: j < |idx.names|
    decreases p, 1
  {
    hide IdOf;
    match p
    case And(cs) => CompiledAllIds(idx, cs, acc);
    case Or(cs) =>
      if AllSymEq(cs) {
        var ids := IdsOf(idx.names, cs);
        IdsInside(idx.names, cs);
        SortIdsMembers(ids);
        if acc.syms.Some? { SortDistinctSorts(acc.syms.value + SortIds(ids)); }
      }
    case Not(_) =>
    case Cmp(Some(f), op, lit) =>
      if lit.StrLit? { IdInside(idx.names, lit.s); }
      if lit.StrLit? && IdOf(idx.names, lit.s).Some? && acc.syms.Some? { RetainMembers(acc.syms.value, IdOf(idx.names, lit.s).value); }
    case Cmp(None, _, _) =>
  }

  lemma IdInside(names: seq<Str>, s: Str)
    ensures IdOf(names, s).Some? ==> IdOf(names, s).value < |names|
  {
  }

  lemma {:induction false} IdsInside(names: seq<Str>, cs: seq<Predicate>)
    requires AllSymEq(cs)
    ensures forall j | j in IdsOf(names, cs) :: j < |names|
  {
    if cs != [] {
      var n := |cs| - 1;
      assert cs[n] in cs;
      IdsInside(names, cs[..n]);
      IdInside(names, cs[n].value.s);
    }
  }

  lemma {:induction false} CompiledAllIds(idx: Index, cs: seq<Predicate>, acc: Acc)
    requires acc.syms.Some? ==> forall j | j in acc.syms.value :: j < |idx.names|
    ensures CompiledAll(idx, cs, acc).syms.Some? ==> forall j | j in CompiledAll(idx, cs, acc).syms.value :: j < |idx.names|
    decreases cs, 0
  {
    if cs != [] {
      CompiledIds(idx, cs[0], acc);
      CompiledAllIds(idx, cs[1..], Compiled(idx, cs[0], acc));
    }
  }

  function Start(idx: Index): Acc { Acc(None, 0, |idx.axis|) }

  function Condition(idx: Index, pred: Option<Predicate>): Acc {
    match pred case None => Start(idx) case Some(p) => Compiled(idx, p, Start(idx))
  }

  lemma ConditionIds(idx: Index, pred: Option<Predicate>)
    requires idx.Valid()
    ensures IdsExist(idx, IdList(idx, Condition(idx, pred)))
  {
    hide Compiled;
    if pred.Some? { CompiledIds(idx, pred.value, Start(idx)); }
    var ids := IdList(idx, Condition(idx, pred));
    forall i | 0 <= i < |ids|
      ensures ids[i] < |idx.recs|
    {
      assert ids[i] in ids;
    }
  }

  /** Some row of the grid at `row` is selected and inside the requested ranges. */
  ghost predicate Wanted(idx: Index, acc: Acc, ranges: seq<RowRange>, row: nat)
    requires idx.Valid()
  {
    exists j: nat, k: nat :: Owns(idx, j, k, row) && acc.Selects(j, idx.recs[j].timeStart + k)
                          && (ranges == [] || Covers(ranges, row))
  }

  predicate Owns(idx: Index, j: nat, k: nat, row: nat) {
    j < |idx.recs| && k < idx.recs[j].timeCount && row == idx.recs[j].rowStart + k
  }

  /** The shares of the selected symbols, merged and cut to the requested ranges. A limit
      cuts the walk over symbols before the ranges are looked at. */
  method ScanIndex(idx: Index, pred: Option<Predicate>, ranges: seq<RowRange>, limit: Option<nat>)
    returns (out: seq<RowRange>)
    requires idx.Valid() && LexIncreasing(idx.names)
    ensures Canonical(out)
    ensures IdsExist(idx, IdList(idx, Condition(idx, pred)))
    ensures forall row: nat :: Covers(out, row) <==>
              Covers(Shares(idx, IdList(idx, Condition(idx, pred)), Condition(idx, pred).lo, Condition(idx, pred).hi, limit, 0), row)
              && (ranges == [] || Covers(ranges, row))
    ensures limit.None? ==> forall row: nat :: Covers(out, row) <==> Wanted(idx, Condition(idx, pred), ranges, row)
  {
    hide Covers, Compiled, Shares, Share, SortIds, Canonical;
    var acc := Start(idx);
    if pred.Some? { acc := CompileNode(idx, pred.value, acc); }
    ConditionIds(idx, pred);
    var ids := IdList(idx, acc);
    var found := CollectShares(idx, ids, acc.lo, acc.hi, limit);
    SharesFit(idx, ids, acc.lo, acc.hi, limit, 0);
    var merged := MergeRanges(found);
    if ranges == [] {
      out := merged;
    } else {
      var clamped := ClampRanges(ranges, idx.RowCount());
      CanonicalSorted(merged);
      CanonicalSorted(clamped);
      out := IntersectRangeLists(merged, clamped);
    }
    if limit.None? {
      forall row: nat
        ensures Covers(out, row) <==> Wanted(idx, acc, ranges, row)
      {
        SharesWanted(idx, acc, ranges, row);
      }
    }
  }

  lemma CanonicalSorted(rs: seq<RowRange>)
    ensures Canonical(rs) ==> SortedDisjoint(rs)
  {
  }

  lemma SharesWanted(idx: Index, acc: Acc, ranges: seq<RowRange>, row: nat)
    requires idx.Valid() && IdsExist(idx, IdList(idx, acc))
    ensures Covers(Shares(idx, IdList(idx, acc), acc.lo, acc.hi, None, 0), row) && (ranges == [] || Covers(ranges, row))
        <==> Wanted(idx, acc, ranges, row)
  {
    hide Covers, Shares, Index.Rows;
    var ids := IdList(idx, acc);
    SharesFit(idx, ids, acc.lo, acc.hi, None, 0);
    if row < idx.RowCount() {
      var j, t := FindRow(idx, row);
      var k := t - idx.recs[j].timeStart;
      assert Owns(idx, j, k, row);
      SharesCover(idx, ids, acc.lo, acc.hi, 0, j, k);
      MemberOfAll(idx, acc, j);
      forall j': nat, k': nat | Owns(idx, j', k', row)
        ensures j' == j && k' == k
      {
        BlockUnique(idx, j, j', row);
      }
    } else {
      forall j: nat, k: nat
        ensures !Owns(idx, j, k, row)
      {
        if j < |idx.recs| - 1 { BlocksOrdered(idx, j, |idx.recs| - 1); }
      }
    }
  }

  lemma MemberOfAll(idx: Index, acc: Acc, j: nat)
    requires j < |idx.recs|
    ensures j in IdList(idx, acc) <==> acc.syms.None? || j in acc.syms.value
  {
    if acc.syms.None? { assert AllIds(|idx.recs|)[j] == j; }
  }

  lemma SharesStep(idx: Index, ids: seq<nat>, i: nat, lo: nat, hi: nat, limit: Option<nat>, produced: nat)
    requires IdsExist(idx, ids) && i <= |ids|
    ensures i == |ids| || (limit.Some? && produced >= limit.value) ==> Shares(idx, ids[i..], lo, hi, limit, produced) == []
    ensures i < |ids| && !(limit.Some? && produced >= limit.value) ==>
              var s := Share(idx.recs[ids[i]], lo, hi);
              Shares(idx, ids[i..], lo, hi, limit, produced)
              == s + Shares(idx, ids[i + 1..], lo, hi, limit, produced + (if s == [] then 0 else s[0].length))
  {
    hide Share;
    if i < |ids| { assert ids[i..][0] == ids[i] && ids[i..][1..] == ids[i + 1..]; }
  }

  method CollectShares(idx: Index, ids: seq<nat>, lo: nat, hi: nat, limit: Option<nat>) returns (out: seq<RowRange>)
    requires IdsExist(idx, ids)
    ensures out == Shares(idx, ids, lo, hi, limit, 0)
  {
    hide Share, Shares;
    out := [];
    var produced := 0;
    assert ids[0..] == ids;
    for i := 0 to |ids|
      invariant produced >= 0
      invariant out + Shares(idx, ids[i..], lo, hi, limit, produced) == Shares(idx, ids, lo, hi, limit, 0)
    {
      SharesStep(idx, ids, i, lo, hi, limit, produced);
      if limit.Some? && produced >= limit.value { return; }
      var s := Share(idx.recs[ids[i]], lo, hi);
      if s == [] { continue; }
      out := out + s;
      produced := produced + s[0].length;
    }
    SharesStep(idx, ids, |ids|, lo, hi, limit, produced);
  }

  // ----- limits

  /** A limited walk yields the leading rows of the unlimited one, and enough of them. */
  lemma {:induction false} SharesLimit(idx: Index, ids: seq<nat>, lo: nat, hi: nat, limit: nat, produced: nat)
    requires IdsExist(idx, ids)
    ensures var cut, all := RowsOf(Shares(idx, ids, lo, hi, Some(limit), produced)), RowsOf(Shares(idx, ids, lo, hi, None, produced));
            cut <= all && (cut == all || produced + |cut| >= limit)
  {
    hide Share, RowsOf;
    if ids == [] || produced >= limit {
      RowsOfEmpty();
    } else {
      var s := Share(idx.recs[ids[0]], lo, hi);
      var p := produced + (if s == [] then 0 else s[0].length);
      SharesLimit(idx, ids[1..], lo, hi, limit, p);
      RowsOfAppend(s, Shares(idx, ids[1..], lo, hi, Some(limit), p));
      RowsOfAppend(s, Shares(idx, ids[1..], lo, hi, None, p));
      RowsOfShort(s);
    }
  }

  lemma RowsOfShort(s: seq<RowRange>)
    requires |s| <= 1
    ensures |RowsOf(s)| == if s == [] then 0 else s[0].length
  {
    if |s| == 1 { assert s[..0] == []; }
  }

  /** Two symbols with one row each. */
  const TWO_SYMS: Index := Index(TimeType.Date32, [5], [[65], [66]], [SymRecord(0, 1, 0), SymRecord(0, 1, 1)])

  lemma TwoSymsValid()
    ensures TWO_SYMS.Valid() && LexIncreasing(TWO_SYMS.names)
  {
    assert LexLess([65], [66]);
  }

  lemma TwoSymsWanted()
    requires TWO_SYMS.Valid()
    ensures Wanted(TWO_SYMS, Start(TWO_SYMS), [RowRange(1, 1)], 1)
  {
    hide Index.Valid;
    assert Owns(TWO_SYMS, 1, 0, 1);
    assert [RowRange(1, 1)][0].Contains(1);
  }

  /** With one row asked for, a first symbol that has rows ends the walk. */
  lemma SharesStop(idx: Index, ids: seq<nat>, lo: nat, hi: nat)
    requires ids != [] && IdsExist(idx, ids) && Share(idx.recs[ids[0]], lo, hi) != []
    requires Share(idx.recs[ids[0]], lo, hi)[0].length > 0
    ensures Shares(idx, ids, lo, hi, Some(1), 0) == Share(idx.recs[ids[0]], lo, hi)
  {
    hide Share;
    var s := Share(idx.recs[ids[0]], lo, hi);
    assert Shares(idx, ids[1..], lo, hi, Some(1), s[0].length) == [];
  }

  /** The limit is counted before the requested ranges are applied: asking for one row
      among rows [1, 2) walks only the first symbol and finds nothing there. */
  lemma LimitBeforeRanges()
    ensures TWO_SYMS.Valid() && LexIncreasing(TWO_SYMS.names)
    ensures Wanted(TWO_SYMS, Start(TWO_SYMS), [RowRange(1, 1)], 1)
    ensures IdsExist(TWO_SYMS, [0, 1]) && !Covers(Shares(TWO_SYMS, [0, 1], 0, 1, Some(1), 0), 1)
  {
    hide Index.Valid, LexIncreasing, Wanted, Shares;
    TwoSymsValid();
    TwoSymsWanted();
    assert Share(TWO_SYMS.recs[0], 0, 1) == [RowRange(0, 1)];
    SharesStop(TWO_SYMS, [0, 1], 0, 1);
  }

  /** Hands out ranges one at a time, cutting the one that crosses the limit. */
  class IndexScanner {
    const ranges: seq<RowRange>
    var pos: nat
    var limit: Option<nat>

    constructor (ranges: seq<RowRange>, limit: Option<nat>)
      ensures Valid() && Remaining() == Take(RowsOf(ranges), limit)
    {
      this.ranges, this.pos, this.limit := ranges, 0, limit;
      new;
      assert ranges[0..] == ranges;
    }

    ghost predicate Valid() reads this { pos <= |ranges| }

    /** The rows still to come. */
    ghost function Remaining(): seq<nat>
      requires Valid()
      reads this
    {
      Take(RowsOf(ranges[pos..]), limit)
    }

    method Next() returns (r: Option<RowRange>)
      requires Valid()
      modifies this
      ensures Valid()
      ensures r.None? ==> old(Remaining()) == []
      ensures r.Some? ==> old(Remaining()) == Span(r.value.offset, r.value.length) + Remaining()
      ensures r.Some? ==> pos == old(pos) + 1
    {
      if pos >= |ranges| {
        RowsOfEmpty();
        return None;
      }
      var range := ranges[pos];
      RowsOfHead(ranges, pos);
      pos := pos + 1;
      if limit.Some? {
        var take := if range.length < limit.value then range.length else limit.value;
        limit := Some(limit.value - take);
        if take < range.length {
          assert Span(range.offset, range.length)[..take] == Span(range.offset, take);
          return Some(RowRange(range.offset, take));
        }
      }
      return Some(range);
    }
  }
}
