/** Chunk boundaries that follow symbols: whole symbols are gathered until a target row
    count is reached, and a symbol above the cap is cut at multiples of the cap. */
module ChunkPlan {
  import opened Bits
  import opened ChunkBounds
  import opened ChunkStream
  import opened Formats
  import opened Order
  import opened Runs
  import Meta
  import MetaBuild

  /** Cuts so far, rows since the last cut, and rows planned. */
  datatype Plan = Plan(cuts: seq<nat>, acc: nat, pos: nat)

  /** The rows of a run from `p` on in steps of `cap`, while inside the run. */
  function Inner(p: nat, end: nat, cap: nat): (r: seq<nat>)
    requires cap > 0
    ensures forall i :: 0 <= i < |r| ==> p <= r[i] < end
    decreases if end > p then end - p else 0
  {
    if p >= end then [] else [p] + Inner(p + cap, end, cap)
  }

  /** Plans one more run. */
  function Step(p: Plan, len: nat, target: nat, cap: nat): Plan
    requires cap > 0
  {
    var end := p.pos + len;
    if len > cap then
      var inner := Inner(p.pos + cap, end, cap);
      Plan(Opened(p, target) + inner, end - (if inner == [] then end else inner[|inner| - 1]), end)
    else Plan(Opened(p, target), Pending(p, target) + len, end)
  }

  /** A chunk that reached the target is closed before the next run. */
  function Opened(p: Plan, target: nat): seq<nat> { if p.acc >= target then p.cuts + [p.pos] else p.cuts }

  function Pending(p: Plan, target: nat): nat { if p.acc >= target then 0 else p.acc }

  function Planned(lens: seq<nat>, target: nat, cap: nat): Plan
    requires cap > 0
  {
    if lens == [] then Plan([0], 0, 0) else Step(Planned(lens[..|lens| - 1], target, cap), lens[|lens| - 1], target, cap)
  }

  // ----- the two planners

  /** The cut points of one oversized run, and the rows after the last of them. */
  method InnerCuts(start: nat, len: nat, cap: nat, cuts: seq<nat>) returns (out: seq<nat>, acc: nat)
    requires cap > 0 && len > cap
    ensures out == cuts + Inner(start + cap, start + len, cap) && Inner(start + cap, start + len, cap) != []
    ensures var inner := Inner(start + cap, start + len, cap); acc == start + len - inner[|inner| - 1]
  {
    hide Inner;
    out := cuts;
    var p := start + cap;
    var end := start + len;
    ghost var inner := Inner(p, end, cap);
    InnerNext(p, end, cap);
    while p < end
      invariant start + cap <= p && p - cap < end && out + Inner(p, end, cap) == cuts + inner
      invariant p > start + cap ==> |out| > |cuts| && out[|out| - 1] == p - cap
      decreases if end > p then end - p else 0
    {
      InnerNext(p, end, cap);
      assert out + ([p] + Inner(p + cap, end, cap)) == out + [p] + Inner(p + cap, end, cap);
      out := out + [p];
      p := p + cap;
    }
    InnerNext(p, end, cap);
    assert out + [] == out;
    assert (cuts + inner)[|cuts + inner| - 1] == inner[|inner| - 1];
    acc := end - (p - cap);
  }

  lemma InnerNext(p: nat, end: nat, cap: nat)
    requires cap > 0
    ensures Inner(p, end, cap) == if p >= end then [] else [p] + Inner(p + cap, end, cap)
  {
  }

  lemma PlannedMore(lens: seq<nat>, j: nat, target: nat, cap: nat)
    requires cap > 0 && j < |lens|
    ensures Planned(lens[..j + 1], target, cap) == Step(Planned(lens[..j], target, cap), lens[j], target, cap)
  {
    assert lens[..j + 1][..j] == lens[..j];
  }

  lemma PlannedNone(target: nat, cap: nat)
    requires cap > 0
    ensures Planned([], target, cap) == Plan([0], 0, 0)
  {
  }

  /** From the index: one symbol after another. */
  method SymAlignedOffsets(idx: Meta.Index, target: nat, cap: nat) returns (r: seq<nat>)
    requires idx.Valid() && cap > 0
    ensures r == SortDistinct(Planned(Counts(idx), target, cap).cuts)
  {
    hide Planned, Inner, SortDistinct;
    var cuts: seq<nat>, acc := [0], 0;
    ghost var lens := Counts(idx);
    PlannedNone(target, cap);
    assert lens[..0] == [];
    for j := 0 to |idx.recs|
      invariant acc >= 0 && Planned(lens[..j], target, cap) == Plan(cuts, acc, if j == 0 then 0 else idx.recs[j - 1].RowEnd())
    {
      var start, len := idx.recs[j].rowStart, idx.recs[j].timeCount;
      PlannedMore(lens, j, target, cap);
      if acc >= target {
        cuts := cuts + [start];
        acc := 0;
      }
      acc := acc + len;
      if len > cap { cuts, acc := InnerCuts(start, len, cap, cuts); }
    }
    assert lens[..|lens|] == lens;
    return SortDistinct(cuts);
  }

  function Counts(idx: Meta.Index): (r: seq<nat>)
    ensures |r| == |idx.recs| && forall j :: 0 <= j < |r| ==> r[j] == idx.recs[j].timeCount
  {
    seq(|idx.recs|, j requires 0 <= j < |idx.recs| => idx.recs[j].timeCount)
  }

  function RunLens(runs: seq<Run>): (r: seq<nat>)
    ensures |r| == |runs| && forall j :: 0 <= j < |r| ==> r[j] == runs[j].len
  {
    seq(|runs|, j requires 0 <= j < |runs| => runs[j].len)
  }

  /** From the symbol column: one run of equal keys after another. */
  method OffsetsFromKeys(keys: seq<nat>, target: nat, cap: nat) returns (r: seq<nat>)
    requires cap > 0
    ensures r == SortDistinct(Planned(RunLens(RunsUpTo(keys, |keys|)), target, cap).cuts)
  {
    hide RunsUpTo, Planned, Inner, SortDistinct, RunsOf;
    PlannedNone(target, cap);
    var cuts: seq<nat>, acc := [0], 0;
    ghost var runs := RunsUpTo(keys, |keys|);
    RunStarts(keys, runs);
    ghost var lens := RunLens(runs);
    ghost var j := 0;
    var i := 0;
    assert lens[..0] == [];
    while i < |keys|
      invariant 0 <= i <= |keys| && acc >= 0 && 0 <= j <= |runs|
      invariant i == (if j < |runs| then runs[j].start else |keys|)
      invariant Planned(lens[..j], target, cap) == Plan(cuts, acc, i)
      decreases |keys| - i
    {
      var len := RunLength(keys, i);
      RunLengthIs(keys, runs, j, len);
      PlannedMore(lens, j, target, cap);
      if acc >= target {
        cuts := cuts + [i];
        acc := 0;
      }
      acc := acc + len;
      if len > cap { cuts, acc := InnerCuts(i, len, cap, cuts); }
      i, j := i + len, j + 1;
    }
    assert lens[..|lens|] == lens;
    return SortDistinct(cuts);
  }

  method RunLength(keys: seq<nat>, i: nat) returns (len: nat)
    requires i < |keys|
    ensures len > 0 && i + len <= |keys| && (forall k :: i <= k < i + len ==> keys[k] == keys[i])
    ensures i + len < |keys| ==> keys[i + len] != keys[i]
  {
    len := 1;
    while i + len < |keys| && keys[i + len] == keys[i]
      invariant len > 0 && i + len <= |keys| && forall k :: i <= k < i + len ==> keys[k] == keys[i]
    {
      len := len + 1;
    }
  }

  lemma RunStarts(keys: seq<nat>, runs: seq<Run>)
    requires RunsOf(keys, |keys|, runs)
    ensures (runs == [] <==> |keys| == 0) && (runs != [] ==> runs[0].start == 0)
    ensures forall j :: 0 <= j < |runs| ==> runs[j].start < |keys|
  {
    forall j | 0 <= j < |runs|
      ensures runs[j].start < |keys|
    {
      assert Uniform(keys, |keys|, runs[j]);
    }
  }

  /** A run found by looking ahead is the run the list is cut into. */
  lemma RunLengthIs(keys: seq<nat>, runs: seq<Run>, j: nat, len: nat)
    requires RunsOf(keys, |keys|, runs) && j < |runs| && len > 0
    requires runs[j].start + len <= |keys|
    requires forall k :: runs[j].start <= k < runs[j].start + len ==> keys[k] == keys[runs[j].start]
    requires runs[j].start + len < |keys| ==> keys[runs[j].start + len] != keys[runs[j].start]
    ensures runs[j].len == len
    ensures runs[j].End() == if j + 1 < |runs| then runs[j + 1].start else |keys|
  {
    assert Uniform(keys, |keys|, runs[j]);
    var s := runs[j].start;
    assert runs[j].End() == if j + 1 < |runs| then runs[j + 1].start else |keys|;
    if j + 1 < |runs| {
      assert Uniform(keys, |keys|, runs[j + 1]);
      assert keys[runs[j + 1].start] != keys[runs[j].start];
    }
  }

  // ----- what a plan promises

  lemma {:induction false} InnerShape(p: nat, end: nat, cap: nat)
    requires cap > 0
    ensures var r := Inner(p, end, cap);
            && (p < end ==> r != [] && r[0] == p && end - r[|r| - 1] <= cap)
            && (p >= end ==> r == [])
    decreases if end > p then end - p else 0
  {
    hide Inner;
    InnerNext(p, end, cap);
    if p < end { InnerShape(p + cap, end, cap); }
  }

  lemma {:induction false} InnerMultiple(p: nat, end: nat, cap: nat, c: nat)
    requires cap > 0 && c in Inner(p, end, cap)
    ensures p <= c < end && (c - p) % cap == 0
    decreases if end > p then end - p else 0
  {
    hide Inner;
    InnerNext(p, end, cap);
    if c != p {
      InnerMultiple(p + cap, end, cap, c);
      ModShift(c - (p + cap), 1, cap);
    }
  }

  /** The longest chunk: almost a target's worth of rows, then one more piece. */
  function Longest(target: nat, cap: nat): nat
    requires cap > 0
  {
    (if target > 0 then target - 1 else 0) + cap
  }

  /** Where the strictly increasing part starts: with target 0 the first cut is made twice. */
  function Doubled(p: Plan, target: nat): nat {
    if target == 0 && p.pos > 0 then 1 else 0
  }

  ghost predicate Rising(cuts: seq<nat>, from: nat) {
    forall i, j :: from <= i < j < |cuts| ==> cuts[i] < cuts[j]
  }

  ghost predicate Close(cuts: seq<nat>, bound: nat) {
    forall i :: 0 <= i < |cuts| - 1 ==> cuts[i + 1] - cuts[i] <= bound
  }

  ghost predicate Shape(p: Plan, target: nat, cap: nat)
    requires cap > 0
  {
    var d := Doubled(p, target);
    && |p.cuts| > d && p.cuts[0] == 0 && p.cuts[d] == 0
    && Rising(p.cuts, d) && Close(p.cuts, Longest(target, cap))
    && p.cuts[|p.cuts| - 1] + p.acc == p.pos && p.acc <= Longest(target, cap)
    && (p.pos > 0 ==> p.acc > 0)
  }

  lemma RisingMore(cuts: seq<nat>, from: nat, c: nat)
    requires Rising(cuts, from) && (from < |cuts| ==> cuts[|cuts| - 1] < c)
    ensures Rising(cuts + [c], from)
  {
    var next := cuts + [c];
    forall i, j | from <= i < j < |next|
      ensures next[i] < next[j]
    {
      if j == |cuts| && i < |cuts| - 1 { assert cuts[i] < cuts[|cuts| - 1]; }
    }
  }

  lemma CloseMore(cuts: seq<nat>, bound: nat, c: nat)
    requires Close(cuts, bound) && cuts != [] && c - cuts[|cuts| - 1] <= bound
    ensures Close(cuts + [c], bound)
  {
  }

  /** The inner cuts of a run extend a list whose last cut is before them and near enough. */
  lemma {:induction false} InnerMore(cuts: seq<nat>, from: nat, bound: nat, p: nat, end: nat, cap: nat)
    requires cap > 0 && cap <= bound && cuts != [] && p < end
    requires Rising(cuts, from) && Close(cuts, bound) && from < |cuts|
    requires cuts[|cuts| - 1] < p && p - cuts[|cuts| - 1] <= bound
    ensures Rising(cuts + Inner(p, end, cap), from) && Close(cuts + Inner(p, end, cap), bound)
    decreases end - p
  {
    hide Inner, Rising, Close;
    InnerNext(p, end, cap);
    RisingMore(cuts, from, p);
    CloseMore(cuts, bound, p);
    assert (cuts + [p])[|cuts + [p]| - 1] == p;
    if p + cap < end {
      InnerMore(cuts + [p], from, bound, p + cap, end, cap);
    } else {
      InnerNext(p + cap, end, cap);
      assert cuts + [p] + [] == cuts + [p];
    }
    assert cuts + ([p] + Inner(p + cap, end, cap)) == cuts + [p] + Inner(p + cap, end, cap);
  }

  /** Opening a chunk at a symbol start, if the last one is full. */
  lemma CutKeeps(p: Plan, target: nat, cap: nat)
    requires cap > 0 && Shape(p, target, cap)
    ensures var cuts, acc := Opened(p, target), Pending(p, target);
            var d := if target == 0 then 1 else 0;
            && |cuts| > d && cuts[0] == 0 && cuts[d] == 0 && cuts[|cuts| - 1] + acc == p.pos && acc + cap <= Longest(target, cap)
            && Rising(cuts, d) && Close(cuts, Longest(target, cap))
  {
    var d := if target == 0 then 1 else 0;
    if p.acc >= target {
      CloseMore(p.cuts, Longest(target, cap), p.pos);
      if p.pos == 0 {
        FirstCut(p, target, cap);
      } else {
        RisingMore(p.cuts, d, p.pos);
      }
    }
  }

  lemma FirstCut(p: Plan, target: nat, cap: nat)
    requires cap > 0 && Shape(p, target, cap) && p.pos == 0
    ensures p.cuts == [0] && p.acc == 0
  {
    RisingEnds(p.cuts);
  }

  lemma {:induction false} RisingEnds(cuts: seq<nat>)
    requires Rising(cuts, 0) && cuts != []
    ensures cuts[|cuts| - 1] >= cuts[0] + |cuts| - 1
  {
    if |cuts| > 1 { RisingEnds(cuts[..|cuts| - 1]); }
  }

  lemma StepKeeps(p: Plan, len: nat, target: nat, cap: nat)
    requires cap > 0 && len > 0 && Shape(p, target, cap)
    ensures Shape(Step(p, len, target, cap), target, cap)
    ensures Step(p, len, target, cap).pos == p.pos + len
  {
    hide Inner, Rising, Close;
    CutKeeps(p, target, cap);
    if len > cap { InnerKeeps(p, len, target, cap); }
  }

  /** The cuts of an oversized symbol, after opening a chunk if need be. */
  lemma InnerKeeps(p: Plan, len: nat, target: nat, cap: nat)
    requires cap > 0 && len > cap && Shape(p, target, cap)
    ensures var cuts := Opened(p, target);
            var inner := Inner(p.pos + cap, p.pos + len, cap);
            var d := if target == 0 then 1 else 0;
            && inner != [] && p.pos + len - inner[|inner| - 1] <= cap
            && Rising(cuts + inner, d) && Close(cuts + inner, Longest(target, cap))
  {
    hide Inner, Rising, Close, Shape, Opened, Pending, Longest;
    CutKeeps(p, target, cap);
    var cuts := Opened(p, target);
    InnerShape(p.pos + cap, p.pos + len, cap);
    InnerMore(cuts, if target == 0 then 1 else 0, Longest(target, cap), p.pos + cap, p.pos + len, cap);
  }

  lemma {:induction false} PlannedShape(lens: seq<nat>, target: nat, cap: nat)
    requires cap > 0 && forall i :: 0 <= i < |lens| ==> lens[i] > 0
    ensures Shape(Planned(lens, target, cap), target, cap) && Planned(lens, target, cap).pos == Sum(lens)
  {
    hide Step, Shape;
    if lens == [] {
      NothingPlanned(target, cap);
    } else {
      PlannedShape(lens[..|lens| - 1], target, cap);
      StepKeeps(Planned(lens[..|lens| - 1], target, cap), lens[|lens| - 1], target, cap);
    }
  }

  lemma NothingPlanned(target: nat, cap: nat)
    requires cap > 0
    ensures Shape(Plan([0], 0, 0), target, cap) && Sum([]) == 0
  {
  }

  // ----- where the cuts lie

  /** A symbol's first row, or a multiple of the cap inside a symbol above it. */
  ghost predicate Allowed(lens: seq<nat>, cap: nat, c: nat)
    requires cap > 0
  {
    exists i :: 0 <= i < |lens| && Inside(lens, cap, c, i)
  }

  ghost predicate Inside(lens: seq<nat>, cap: nat, c: nat, i: nat)
    requires cap > 0 && i < |lens|
  {
    var start := Sum(lens[..i]);
    start <= c < start + lens[i] && (c == start || (lens[i] > cap && (c - start) % cap == 0))
  }

  lemma AllowedMore(lens: seq<nat>, n: nat, cap: nat, c: nat)
    requires cap > 0 && Allowed(lens, cap, c)
    ensures Allowed(lens + [n], cap, c)
  {
    var i :| 0 <= i < |lens| && Inside(lens, cap, c, i);
    assert (lens + [n])[..i] == lens[..i];
    assert Inside(lens + [n], cap, c, i);
  }

  lemma {:induction false} PlannedAllowed(lens: seq<nat>, target: nat, cap: nat)
    requires cap > 0 && forall i :: 0 <= i < |lens| ==> lens[i] > 0
    ensures forall c :: c in Planned(lens, target, cap).cuts ==> c == 0 || Allowed(lens, cap, c)
    ensures lens != [] ==> Allowed(lens, cap, 0)
  {
    hide Step, Shape, Allowed, Sum;
    if lens != [] {
      var m := |lens| - 1;
      var before, n := lens[..m], lens[m];
      assert lens == before + [n];
      PlannedAllowed(before, target, cap);
      PlannedShape(before, target, cap);
      var p := Planned(before, target, cap);
      forall c | c in Planned(lens, target, cap).cuts
        ensures c == 0 || Allowed(lens, cap, c)
      {
        StepCuts(p, n, target, cap, c);
        if c in p.cuts {
          if c != 0 { AllowedMore(before, n, cap, c); }
        } else {
          AllowedHere(before, n, cap, c);
        }
      }
      if m > 0 { AllowedMore(before, n, cap, 0); }
      else { SumNone(); AllowedHere(before, n, cap, 0); }
    }
  }

  /** A cut that a run adds is its first row or one of its inner cuts. */
  lemma StepCuts(p: Plan, n: nat, target: nat, cap: nat, c: nat)
    requires cap > 0 && n > 0 && c in Step(p, n, target, cap).cuts
    ensures c in p.cuts || c == p.pos || (n > cap && p.pos <= c < p.pos + n && (c - p.pos) % cap == 0)
  {
    hide Inner;
    if n > cap && c in Inner(p.pos + cap, p.pos + n, cap) {
      InnerMultiple(p.pos + cap, p.pos + n, cap, c);
      ModShift(c - (p.pos + cap), 1, cap);
    }
  }

  lemma AllowedHere(before: seq<nat>, n: nat, cap: nat, c: nat)
    requires cap > 0 && n > 0
    requires c == Sum(before) || (n > cap && Sum(before) <= c < Sum(before) + n && (c - Sum(before)) % cap == 0)
    ensures Allowed(before + [n], cap, c)
  {
    var lens := before + [n];
    assert lens[..|before|] == before;
    assert Inside(lens, cap, c, |before|);
  }

  /** The plan as handed out: sorted, duplicates dropped. */
  lemma PlanExact(lens: seq<nat>, target: nat, cap: nat)
    requires cap > 0 && lens != [] && forall i :: 0 <= i < |lens| ==> lens[i] > 0
    ensures var r := SortDistinct(Planned(lens, target, cap).cuts);
            && Increasing(r) && OffsetsValid(Sum(lens), Some(r))
            && (forall c :: c in r ==> Allowed(lens, cap, c))
            && Close(r + [Sum(lens)], Longest(target, cap))
  {
    hide Planned, SortDistinct, Allowed, Rising, Close, Sum, Longest, Inner, Step;
    PlannedShape(lens, target, cap);
    PlannedAllowed(lens, target, cap);
    SumPositive(lens);
    var p := Planned(lens, target, cap);
    Deduplicated(p.cuts, Doubled(p, target), Longest(target, cap));
    var r := SortDistinct(p.cuts);
    SortDistinctSorts(p.cuts);
    IncreasingBelow(r, Sum(lens));
    CloseMore(r, Longest(target, cap), Sum(lens));
  }

  lemma IncreasingBelow(r: seq<nat>, n: nat)
    requires Increasing(r) && r != [] && r[|r| - 1] < n
    ensures forall o :: o in r ==> o < n
  {
  }

  /** Sorting drops the doubled first cut and nothing else. */
  lemma Deduplicated(cuts: seq<nat>, d: nat, bound: nat)
    requires d <= 1 && |cuts| > d && cuts[0] == 0 && cuts[d] == 0 && Rising(cuts, d) && Close(cuts, bound)
    ensures SortDistinct(cuts) == cuts[d..] && Increasing(cuts[d..]) && Close(cuts[d..], bound)
  {
    hide SortDistinct;
    SortDistinctSorts(cuts);
    forall x: nat
      ensures x in cuts[d..] <==> x in SortDistinct(cuts)
    {
      if x in cuts {
        var i :| 0 <= i < |cuts| && cuts[i] == x;
        assert cuts[d..][if i >= d then i - d else 0] == x;
      }
      if x in cuts[d..] { assert x in cuts; }
    }
    IncreasingUnique(cuts[d..], SortDistinct(cuts));
    forall i | 0 <= i < |cuts[d..]| - 1
      ensures cuts[d..][i + 1] - cuts[d..][i] <= bound
    {
      assert cuts[d + i + 1] - cuts[d + i] <= bound;
    }
  }

  lemma SumPositive(lens: seq<nat>)
    requires lens != [] && forall i :: 0 <= i < |lens| ==> lens[i] > 0
    ensures Sum(lens) > 0
  {
  }

  // ----- the two planners agree

  /** On the index built from a symbol column, both planners give the same boundaries. */
  lemma PlannersAgree(inp: MetaBuild.Input)
    requires inp.Typed() && inp.Shaped() && inp.Named() && inp.AllAccepted()
    ensures inp.Result().Valid()
    ensures Counts(inp.Result()) == RunLens(RunsUpTo(inp.keys, |inp.keys|))
  {
    hide RunsUpTo;
    MetaBuild.ResultValid(inp);
    forall j | 0 <= j < |inp.Runs()|
      ensures Counts(inp.Result())[j] == RunLens(inp.Runs())[j]
    {
      MetaBuild.ResultRecord(inp, j);
    }
  }

  /** Both plans of a freshly built dataset, and what they promise about the chunks cut from them. */
  method PlanBothWays(inp: MetaBuild.Input, target: nat, cap: nat) returns (fromKeys: seq<nat>, fromIndex: seq<nat>, lens: seq<nat>)
    requires inp.Typed() && inp.Shaped() && inp.Named() && inp.AllAccepted() && cap > 0
    ensures fromKeys == fromIndex
    ensures Sum(lens) == |inp.keys| && Starts(lens) == fromIndex
    ensures forall i :: 0 <= i < |lens| ==> 0 < lens[i] <= Longest(target, cap)
    ensures forall c :: c in fromIndex ==> Allowed(Counts(inp.Result()), cap, c)
  {
    hide RunsUpTo, Planned, Sum, Allowed;
    MetaBuild.ResultValid(inp);
    PlannersAgree(inp);
    var built := MetaBuild.BuildIndex(inp);
    fromKeys := OffsetsFromKeys(inp.keys, target, cap);
    fromIndex := SymAlignedOffsets(built.value, target, cap);
    ghost var counts := Counts(inp.Result());
    CountsSum(inp.Result());
    PlanExact(counts, target, cap);
    var bounds := ChunkBoundaries(|inp.keys|, Some(fromIndex));
    lens := bounds.value;
    SortDistinctSorts(fromIndex);
    IncreasingUnique(SortDistinct(fromIndex), fromIndex);
    forall i | 0 <= i < |lens|
      ensures lens[i] <= Longest(target, cap)
    {
      SumStep(lens, i);
      var all := fromIndex + [Sum(counts)];
      assert all[i] == Starts(lens)[i];
      if i + 1 < |lens| { assert all[i + 1] == Starts(lens)[i + 1]; }
      else { assert lens[..i + 1] == lens; }
      assert all[i + 1] - all[i] <= Longest(target, cap);
    }
  }

  lemma CountsSum(idx: Meta.Index)
    requires idx.Valid() && idx.recs != []
    ensures Sum(Counts(idx)) == idx.RowCount()
    ensures forall i :: 0 <= i < |Counts(idx)| ==> Counts(idx)[i] > 0
  {
    CountsUpTo(idx, |idx.recs|);
    assert Counts(idx)[..|idx.recs|] == Counts(idx);
  }

  lemma {:induction false} CountsUpTo(idx: Meta.Index, n: nat)
    requires idx.Valid() && 0 < n <= |idx.recs|
    ensures Sum(Counts(idx)[..n]) == idx.recs[n - 1].RowEnd()
  {
    var lens := Counts(idx);
    SumStep(lens, n - 1);
    if n == 1 { assert lens[..0] == []; SumNone(); }
    else { CountsUpTo(idx, n - 1); }
  }
}
