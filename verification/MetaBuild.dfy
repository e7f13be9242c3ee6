/** Building the index from `(sym, time)` rows: one scan for the runs, the sorted
    distinct times as the axis, and a span check that places every run on it. */
module MetaBuild {
  import opened Bits
  import opened Formats
  import opened Order
  import opened Runs
  import opened Meta

  /** The two key columns: the dictionary keys of all segments, the string each row's key has
      in its own segment's dictionary (none past its end), and time patterns. */
  datatype Input = Input(tt: TimeType, keys: seq<nat>, strings: seq<Option<Str>>, times: seq<nat>) {
    ghost predicate Typed() {
      && |keys| < TWO_32
      && forall i :: 0 <= i < |times| ==> times[i] < tt.Bound()
    }

    function StringAt(i: nat): Option<Str> {
      if i < |strings| then strings[i] else None
    }

    ghost predicate Shaped() { |keys| == |times| > 0 }

    ghost function Runs(): seq<Run> { RunsUpTo(keys, |keys|) }

    ghost function Axis(): seq<nat> { SortDistinct(times) }

    ghost predicate Named() {
      forall j :: 0 <= j < |Runs()| ==> StringAt(Runs()[j].start).Some?
    }

    /** All rows of a run have the string of its first one, as with one dictionary they do. */
    ghost predicate OneName() {
      forall i, j :: 0 <= j < |Runs()| && Runs()[j].start <= i < Runs()[j].End() ==> StringAt(i) == StringAt(Runs()[j].start)
    }

    ghost function Rows(): (r: seq<Row>)
      requires Shaped() && Named() && OneName()
      ensures |r| == |keys|
    {
      NamedEverywhere(this);
      seq(|keys|, i requires 0 <= i < |keys| => Row(StringAt(i).value, times[i]))
    }

    /** The built index reads back as the input, string by string and time by time. */
    ghost predicate ReadsBack()
      requires Shaped() && Named()
    {
      Result().Valid() && |Result().Rows()| == |keys| && SymsBack() && TimesBack()
    }

    ghost predicate SymsBack()
      requires Shaped() && Named() && Result().Valid() && |Result().Rows()| == |keys|
    {
      forall i: nat :: i < |keys| ==> StringAt(i) == Some(Result().Rows()[i].sym)
    }

    ghost predicate TimesBack()
      requires Shaped() && Named() && Result().Valid() && |Result().Rows()| == |keys|
    {
      forall i: nat :: i < |keys| ==> Result().Rows()[i].time == times[i]
    }

    /** The times of a run. */
    ghost function Times(r: Run): (t: seq<nat>)
      requires r.len > 0 && r.End() <= |times|
      ensures |t| == r.len && forall i :: 0 <= i < r.len ==> t[i] == times[r.start + i] && t[i] in Axis()
    {
      SortDistinctSorts(times);
      times[r.start..r.End()]
    }

    /** The span check: from the run's first time to its last, the axis has as many
        entries as the run has rows. */
    ghost predicate Accepts(r: Run)
      requires r.len > 0 && r.End() <= |times|
    {
      Spans(Axis(), Times(r))
    }

    ghost predicate AllAccepted()
      requires Shaped()
    {
      forall j :: 0 <= j < |Runs()| ==> Uniform(keys, |keys|, Runs()[j]) && Accepts(Runs()[j])
    }

    /** The times of every run strictly increase. */
    ghost predicate RunsIncrease()
      requires Shaped()
    {
      forall j :: 0 <= j < |Runs()| ==>
        Uniform(keys, |keys|, Runs()[j]) && Increasing(Times(Runs()[j]))
    }

    ghost function Records(n: nat): (r: seq<SymRecord>)
      requires Shaped() && n <= |Runs()|
      ensures |r| == n
    {
      SortDistinctSorts(times);
      var runs := Runs();
      seq(n, j requires 0 <= j < n =>
        assert Uniform(keys, |keys|, runs[j]);
        SymRecord(Position(Axis(), times[runs[j].start]), runs[j].len, runs[j].start))
    }

    ghost function Names(n: nat): (r: seq<Str>)
      requires Named() && n <= |Runs()|
      ensures |r| == n
    {
      seq(n, j requires 0 <= j < n => StringAt(Runs()[j].start).value)
    }

    /** The index the rows stand for. */
    ghost function Result(): Index
      requires Shaped() && Named()
    {
      Index(tt, Axis(), Names(|Runs()|), Records(|Runs()|))
    }
  }

  lemma NamedEverywhere(inp: Input)
    requires inp.Named() && inp.OneName()
    ensures forall i: nat :: i < |inp.keys| ==> inp.StringAt(i).Some?
  {
    var runs := inp.Runs();
    forall i: nat | i < |inp.keys|
      ensures inp.StringAt(i).Some?
    {
      var j := RunsCover(inp.keys, |inp.keys|, runs, i, |runs| - 1);
      assert Uniform(inp.keys, |inp.keys|, runs[j]);
    }
  }

  // ----- the pigeonhole argument

  lemma PositionUnique(s: seq<nat>, i: nat)
    requires Increasing(s) && i < |s|
    ensures Position(s, s[i]) == i
  {
  }

  /** `n` increasing members of the axis, spanning `n` places, fill those places. */
  lemma {:induction false} PigeonholeLow(axis: seq<nat>, t: seq<nat>, k: nat)
    requires Increasing(axis) && Increasing(t) && k < |t|
    requires forall i :: 0 <= i < |t| ==> t[i] in axis
    ensures Position(axis, t[k]) >= Position(axis, t[0]) + k
  {
    if k > 0 { PigeonholeLow(axis, t, k - 1); }
  }

  lemma {:induction false} PigeonholeHigh(axis: seq<nat>, t: seq<nat>, k: nat)
    requires Increasing(axis) && Increasing(t) && k < |t|
    requires forall i :: 0 <= i < |t| ==> t[i] in axis
    ensures Position(axis, t[k]) + (|t| - 1 - k) <= Position(axis, t[|t| - 1])
    decreases |t| - k
  {
    if k < |t| - 1 { PigeonholeHigh(axis, t, k + 1); }
  }

  ghost predicate SliceAt(axis: seq<nat>, t: seq<nat>, a: nat) {
    a + |t| <= |axis| && axis[a..a + |t|] == t
  }

  ghost predicate IsSlice(axis: seq<nat>, t: seq<nat>) {
    exists a: nat :: SliceAt(axis, t, a)
  }

  ghost predicate Spans(axis: seq<nat>, t: seq<nat>)
    requires t != [] && t[0] in axis && t[|t| - 1] in axis
  {
    var p, q := Position(axis, t[0]), Position(axis, t[|t| - 1]);
    q >= p && q - p + 1 == |t|
  }

  /** For increasing times, the span check says exactly that they are a slice of the axis. */
  lemma SpanIsSlice(axis: seq<nat>, t: seq<nat>)
    requires Increasing(axis) && Increasing(t) && t != []
    requires forall i :: 0 <= i < |t| ==> t[i] in axis
    ensures Spans(axis, t) <==> IsSlice(axis, t)
    ensures Spans(axis, t) ==> SliceAt(axis, t, Position(axis, t[0]))
  {
    hide Position;
    var p, n := Position(axis, t[0]), |t|;
    if Spans(axis, t) {
      forall k | 0 <= k < n
        ensures p + k < |axis| && axis[p + k] == t[k]
      {
        PigeonholeLow(axis, t, k);
        PigeonholeHigh(axis, t, k);
      }
      assert SliceAt(axis, t, p);
    }
    if IsSlice(axis, t) { SliceSpans(axis, t); }
  }

  lemma SliceSpans(axis: seq<nat>, t: seq<nat>)
    requires Increasing(axis) && t != [] && IsSlice(axis, t)
    ensures t[0] in axis && t[|t| - 1] in axis && Spans(axis, t)
  {
    hide Position;
    var a: nat :| SliceAt(axis, t, a);
    assert axis[a] == t[0] && axis[a + |t| - 1] == t[|t| - 1];
    PositionUnique(axis, a);
    PositionUnique(axis, a + |t| - 1);
  }

  // ----- what an accepted build represents

  lemma RunShape(inp: Input, j: nat)
    requires inp.Shaped() && j < |inp.Runs()|
    ensures Uniform(inp.keys, |inp.keys|, inp.Runs()[j])
    ensures inp.Runs()[0].start == 0
    ensures if j + 1 < |inp.Runs()| then inp.Runs()[j + 1].start == inp.Runs()[j].End() else inp.Runs()[j].End() == |inp.keys|
  {
  }

  lemma RecordsNone(inp: Input)
    requires inp.Shaped()
    ensures inp.Records(0) == [] && |inp.Runs()| > 0
  {
  }

  lemma AxisSorted(inp: Input)
    ensures Increasing(inp.Axis())
    ensures forall t: nat :: t in inp.Axis() <==> t in inp.times
  {
    SortDistinctSorts(inp.times);
  }

  lemma ResultRecord(inp: Input, j: nat)
    requires inp.Typed() && inp.Shaped() && inp.Named() && inp.AllAccepted() && j < |inp.Runs()|
    ensures Uniform(inp.keys, |inp.keys|, inp.Runs()[j])
    ensures var rec := inp.Result().recs[j];
            && rec.rowStart == inp.Runs()[j].start && rec.timeCount == inp.Runs()[j].len
            && rec.timeStart == Position(inp.Axis(), inp.Times(inp.Runs()[j])[0])
            && rec.timeStart + rec.timeCount <= |inp.Axis()|
  {
    hide RunsUpTo, Position, SortDistinct;
    RunShape(inp, j);
    assert inp.Accepts(inp.Runs()[j]);
  }

  lemma ResultValid(inp: Input)
    requires inp.Typed() && inp.Shaped() && inp.Named() && inp.AllAccepted()
    ensures inp.Result().Valid()
    ensures inp.Result().RowCount() == |inp.keys| && |inp.Result().recs| == |inp.Runs()| > 0
  {
    hide RunsUpTo, Position, SortDistinct, Input.Result, Input.Named, Input.AllAccepted, Input.Times;
    var idx := inp.Result();
    ResultShape(inp);
    forall j | 0 <= j < |idx.recs|
      ensures idx.recs[j].timeCount > 0 && idx.recs[j].timeStart + idx.recs[j].timeCount <= |idx.axis|
    {
      ResultBlock(inp, j);
    }
    ResultBlock(inp, 0);
    ResultBlock(inp, |idx.recs| - 1);
    forall j | 0 < j < |idx.recs|
      ensures idx.recs[j].rowStart == idx.recs[j - 1].RowEnd()
    {
      ResultBlock(inp, j - 1);
      ResultBlock(inp, j);
    }
  }

  /** A symbol's block: where its run was, up to the next run. */
  lemma ResultBlock(inp: Input, j: nat)
    requires inp.Typed() && inp.Shaped() && inp.Named() && inp.AllAccepted() && j < |inp.Runs()|
    ensures |inp.Result().recs| == |inp.Runs()|
    ensures var rec := inp.Result().recs[j];
            && rec.timeCount > 0 && rec.timeStart + rec.timeCount <= |inp.Axis()|
            && rec.rowStart == inp.Runs()[j].start && (j == 0 ==> rec.rowStart == 0)
            && rec.RowEnd() == if j + 1 < |inp.Runs()| then inp.Runs()[j + 1].start else |inp.keys|
  {
    hide RunsUpTo, RunsOf, Position, SortDistinct, Input.Result, Input.Named, Input.AllAccepted, Input.Times;
    ResultShape(inp);
    ResultRecord(inp, j);
    RunShape(inp, j);
  }

  lemma ResultShape(inp: Input)
    requires inp.Typed() && inp.Shaped() && inp.Named()
    ensures var idx := inp.Result();
            && |idx.names| == |idx.recs| == |inp.Runs()| > 0 && idx.axis == inp.Axis() && Increasing(idx.axis)
            && forall i :: 0 <= i < |idx.axis| ==> idx.axis[i] < idx.tt.Bound()
  {
    hide RunsUpTo, Position, SortDistinct, Input.Named;
    AxisSorted(inp);
    RecordsNone(inp);
    forall i | 0 <= i < |inp.Axis()|
      ensures inp.Axis()[i] < inp.tt.Bound()
    {
      assert inp.Axis()[i] in inp.times;
    }
  }

  /** Row `i` of run `j` reads back as the run's string and the axis entry `i - start` places
      after the run's first. */
  lemma ResultRow(inp: Input, j: nat, i: nat)
    requires inp.Typed() && inp.Shaped() && inp.Named() && inp.AllAccepted()
    requires j < |inp.Runs()| && inp.Runs()[j].start <= i < inp.Runs()[j].End()
    ensures inp.Result().Valid() && i < |inp.Result().Rows()| == |inp.keys|
    ensures inp.StringAt(inp.Runs()[j].start).Some?
    ensures inp.Result().recs[j].timeStart + (i - inp.Runs()[j].start) < |inp.Axis()|
    ensures inp.Result().Rows()[i] == Row(inp.StringAt(inp.Runs()[j].start).value,
                                          inp.Axis()[inp.Result().recs[j].timeStart + (i - inp.Runs()[j].start)])
  {
    hide Index.Rows, RunsUpTo, Position, SortDistinct, Index.Valid, Input.AllAccepted;
    ResultValid(inp);
    ResultRecord(inp, j);
    RowAt(inp.Result(), j, i - inp.Runs()[j].start);
  }

  /** An accepted build reads back as its input if and only if the times of every run strictly
      increase and equal keys side by side mean equal strings; the build itself checks neither. */
  lemma BuildExact(inp: Input)
    requires inp.Typed() && inp.Shaped() && inp.Named() && inp.AllAccepted()
    ensures inp.Result().Valid()
    ensures inp.ReadsBack() <==> inp.RunsIncrease() && inp.OneName()
    ensures inp.OneName() ==> (inp.Result().Rows() == inp.Rows() <==> inp.RunsIncrease())
  {
    hide *;
    ResultSize(inp);
    if inp.RunsIncrease() { IncreasingReadsBack(inp); }
    if inp.TimesBack() { ReadBackIncreases(inp); }
    SymsExact(inp);
    ReadsBackIs(inp);
  }

  lemma ResultSize(inp: Input)
    requires inp.Typed() && inp.Shaped() && inp.Named() && inp.AllAccepted()
    ensures inp.Result().Valid() && |inp.Result().Rows()| == |inp.keys|
  {
    hide Index.Rows, Index.Valid, RunsUpTo, Input.Result, Input.Named, Input.AllAccepted;
    ResultValid(inp);
    GridLength(inp.Result());
  }

  lemma ReadsBackIs(inp: Input)
    requires inp.Shaped() && inp.Named() && inp.Result().Valid() && |inp.Result().Rows()| == |inp.keys|
    ensures inp.ReadsBack() <==> inp.SymsBack() && inp.TimesBack()
    ensures inp.OneName() ==> (inp.Result().Rows() == inp.Rows() <==> inp.SymsBack() && inp.TimesBack())
  {
    hide Index.Rows, Index.Valid, Input.Result, Input.Named, Input.OneName, RunsUpTo;
    if inp.OneName() {
      NamedEverywhere(inp);
      var rows := inp.Rows();
      assert forall i: nat :: i < |inp.keys| ==> rows[i] == Row(inp.StringAt(i).value, inp.times[i]);
      if inp.SymsBack() && inp.TimesBack() {
        forall i | 0 <= i < |inp.keys|
          ensures inp.Result().Rows()[i] == rows[i]
        {
        }
        assert inp.Result().Rows() == rows;
      }
    }
  }

  /** The strings come back exactly when every run has one. */
  lemma SymsExact(inp: Input)
    requires inp.Typed() && inp.Shaped() && inp.Named() && inp.AllAccepted()
    ensures inp.Result().Valid() && |inp.Result().Rows()| == |inp.keys|
    ensures inp.SymsBack() <==> inp.OneName()
  {
    hide Index.Rows, Index.Valid, RunsUpTo, RunsOf, Input.Result, Input.Named, Input.AllAccepted;
    ResultSize(inp);
    var runs := inp.Runs();
    if inp.OneName() {
      forall i: nat | i < |inp.keys|
        ensures inp.StringAt(i) == Some(inp.Result().Rows()[i].sym)
      {
        RecordsNone(inp);
        RunShape(inp, |runs| - 1);
        var j := RunsCover(inp.keys, |inp.keys|, runs, i, |runs| - 1);
        ResultRow(inp, j, i);
      }
    }
    if inp.SymsBack() {
      forall i, j | 0 <= j < |runs| && runs[j].start <= i < runs[j].End()
        ensures inp.StringAt(i) == inp.StringAt(runs[j].start)
      {
        ResultRow(inp, j, i);
      }
    }
  }

  /** An accepted run with increasing times lies on the axis from its first time on. */
  lemma RunOnAxis(inp: Input, j: nat, k: nat)
    requires inp.Typed() && inp.Shaped() && inp.Named() && inp.AllAccepted() && inp.RunsIncrease()
    requires j < |inp.Runs()| && k < inp.Runs()[j].len
    ensures Uniform(inp.keys, |inp.keys|, inp.Runs()[j])
    ensures var p := Position(inp.Axis(), inp.Times(inp.Runs()[j])[0]);
            p + k < |inp.Axis()| && inp.Axis()[p + k] == inp.times[inp.Runs()[j].start + k]
  {
    hide RunsUpTo, RunsOf, Position, SortDistinct;
    RunShape(inp, j);
    AxisSorted(inp);
    var axis, t := inp.Axis(), inp.Times(inp.Runs()[j]);
    assert inp.Accepts(inp.Runs()[j]);
    SpanIsSlice(axis, t);
    var p := Position(axis, t[0]);
    assert axis[p + k] == axis[p..p + |t|][k];
  }

  lemma IncreasingRow(inp: Input, i: nat)
    requires inp.Typed() && inp.Shaped() && inp.Named() && inp.AllAccepted() && inp.RunsIncrease()
    requires i < |inp.keys|
    ensures inp.Result().Valid() && |inp.Result().Rows()| == |inp.keys|
    ensures inp.Result().Rows()[i].time == inp.times[i]
  {
    hide Index.Rows, RunsUpTo, RunsOf, Position, SortDistinct, Input.Result, Input.AllAccepted, Input.RunsIncrease;
    var runs := inp.Runs();
    RecordsNone(inp);
    RunShape(inp, |runs| - 1);
    var j := RunsCover(inp.keys, |inp.keys|, runs, i, |runs| - 1);
    ResultRow(inp, j, i);
    ResultRecord(inp, j);
    RunOnAxis(inp, j, i - runs[j].start);
  }

  lemma IncreasingReadsBack(inp: Input)
    requires inp.Typed() && inp.Shaped() && inp.Named() && inp.AllAccepted() && inp.RunsIncrease()
    ensures inp.Result().Valid() && |inp.Result().Rows()| == |inp.keys|
    ensures inp.TimesBack()
  {
    hide Index.Rows, RunsUpTo, Position, SortDistinct, Input.Result;
    ResultSize(inp);
    forall i: nat | i < |inp.keys|
      ensures inp.Result().Rows()[i].time == inp.times[i]
    {
      IncreasingRow(inp, i);
    }
  }

  lemma ReadBackPair(inp: Input, j: nat, a: nat, b: nat)
    requires inp.Typed() && inp.Shaped() && inp.Named() && inp.AllAccepted()
    requires inp.Result().Valid() && |inp.Result().Rows()| == |inp.keys| && inp.TimesBack()
    requires j < |inp.Runs()| && a < b < inp.Runs()[j].len
    ensures Uniform(inp.keys, |inp.keys|, inp.Runs()[j])
    ensures inp.Times(inp.Runs()[j])[a] < inp.Times(inp.Runs()[j])[b]
  {
    hide Index.Rows, RunsUpTo, RunsOf, Position, SortDistinct, Input.Result, Input.AllAccepted;
    AxisSorted(inp);
    RunShape(inp, j);
    var r := inp.Runs()[j];
    ResultRow(inp, j, r.start + a);
    ResultRow(inp, j, r.start + b);
    ResultValid(inp);
    var p := inp.Result().recs[j].timeStart;
    assert inp.times[r.start + a] == inp.Axis()[p + a];
    assert inp.times[r.start + b] == inp.Axis()[p + b];
  }

  lemma ReadBackIncreases(inp: Input)
    requires inp.Typed() && inp.Shaped() && inp.Named() && inp.AllAccepted()
    requires inp.Result().Valid() && |inp.Result().Rows()| == |inp.keys| && inp.TimesBack()
    ensures inp.RunsIncrease()
  {
    hide Index.Rows, RunsUpTo, RunsOf, Position, SortDistinct, Input.Result, Input.AllAccepted;
    var runs := inp.Runs();
    forall j | 0 <= j < |runs|
      ensures Uniform(inp.keys, |inp.keys|, runs[j]) && Increasing(inp.Times(runs[j]))
    {
      RunShape(inp, j);
      var t := inp.Times(runs[j]);
      forall a, b | 0 <= a < b < |t|
        ensures t[a] < t[b]
      {
        ReadBackPair(inp, j, a, b);
      }
    }
  }

  /** For runs in strictly increasing time order, acceptance means that every run is a
      contiguous slice of the sorted distinct axis. */
  lemma AcceptedIffSlices(inp: Input)
    requires inp.Shaped() && inp.RunsIncrease()
    ensures inp.AllAccepted() <==>
              forall j :: 0 <= j < |inp.Runs()| ==>
                Uniform(inp.keys, |inp.keys|, inp.Runs()[j]) && IsSlice(inp.Axis(), inp.Times(inp.Runs()[j]))
  {
    hide RunsUpTo, Position, SortDistinct;
    AxisSorted(inp);
    var runs := inp.Runs();
    forall j | 0 <= j < |runs|
      ensures Uniform(inp.keys, |inp.keys|, runs[j])
      ensures inp.Accepts(runs[j]) <==> IsSlice(inp.Axis(), inp.Times(runs[j]))
    {
      RunShape(inp, j);
      SpanIsSlice(inp.Axis(), inp.Times(runs[j]));
    }
  }

  /** What the conditions come to when all keys are the same. */
  lemma OneRunOnly(inp: Input)
    requires inp.Shaped() && inp.StringAt(0).Some? && forall i :: 0 <= i < |inp.keys| ==> inp.keys[i] == 0
    ensures inp.Runs() == [Run(0, |inp.keys|)] && inp.Named()
    ensures inp.times[0] in inp.Axis() && inp.times[|inp.times| - 1] in inp.Axis()
    ensures inp.AllAccepted() <==> Spans(inp.Axis(), inp.times)
    ensures inp.RunsIncrease() <==> Increasing(inp.times)
    ensures inp.OneName() <==> forall i: nat :: i < |inp.keys| ==> inp.StringAt(i) == inp.StringAt(0)
  {
    hide *;
    OneRunShape(inp);
    OneRunTimes(inp);
    OneRunNames(inp);
  }

  lemma OneRunShape(inp: Input)
    requires inp.Shaped() && forall i :: 0 <= i < |inp.keys| ==> inp.keys[i] == 0
    ensures inp.Runs() == [Run(0, |inp.keys|)] && Uniform(inp.keys, |inp.keys|, Run(0, |inp.keys|))
    ensures inp.Times(Run(0, |inp.keys|)) == inp.times
  {
    hide RunsUpTo, RunsOf, SortDistinct;
    OneRun(inp.keys, |inp.keys|);
    assert inp.times[0..|inp.keys|] == inp.times;
  }

  lemma OneRunTimes(inp: Input)
    requires inp.Shaped() && inp.Runs() == [Run(0, |inp.keys|)] && Uniform(inp.keys, |inp.keys|, Run(0, |inp.keys|))
    requires inp.Times(Run(0, |inp.keys|)) == inp.times
    ensures inp.times[0] in inp.Axis() && inp.times[|inp.times| - 1] in inp.Axis()
    ensures inp.AllAccepted() <==> Spans(inp.Axis(), inp.times)
    ensures inp.RunsIncrease() <==> Increasing(inp.times)
  {
    hide Input.Axis, Input.Runs, Input.Times, Uniform, Spans, Increasing;
    AxisSorted(inp);
    assert inp.Runs()[0] == Run(0, |inp.keys|);
  }

  lemma OneRunNames(inp: Input)
    requires inp.Runs() == [Run(0, |inp.keys|)] && inp.StringAt(0).Some?
    ensures inp.Named()
    ensures inp.OneName() <==> forall i: nat :: i < |inp.keys| ==> inp.StringAt(i) == inp.StringAt(0)
  {
    hide Input.Runs;
    assert inp.Runs()[0] == Run(0, |inp.keys|);
  }

  /** The span check looks at a run's two ends only: times 1, 3, 2, 4 pass and read back sorted. */
  lemma UnsortedRunPasses()
    ensures var inp := Input(TimeType.Date32, [0, 0, 0, 0], [Some([65]), Some([65]), Some([65]), Some([65])], [1, 3, 2, 4]);
            && inp.Typed() && inp.Shaped() && inp.Named() && inp.AllAccepted()
            && inp.OneName() && !inp.ReadsBack()
  {
    hide Input.ReadsBack, Input.OneName, Input.Named, Input.AllAccepted, Input.RunsIncrease, RunsUpTo,
         SortDistinct, Position;
    var inp := Input(TimeType.Date32, [0, 0, 0, 0], [Some([65]), Some([65]), Some([65]), Some([65])], [1, 3, 2, 4]);
    OneRunOnly(inp);
    SortedSample(inp.times);
    PositionUnique([1, 2, 3, 4], 0);
    PositionUnique([1, 2, 3, 4], 3);
    assert inp.times[1] > inp.times[2];
    BuildExact(inp);
  }

  /** Two segments with their own dictionaries, key 0 being `A` in one and `B` in the other: one
      run, and the second row reads back as `A`. */
  lemma OtherDictionaryPasses()
    ensures var inp := Input(TimeType.Date32, [0, 0], [Some([65]), Some([66])], [1, 2]);
            && inp.Typed() && inp.Shaped() && inp.Named() && inp.AllAccepted() && inp.RunsIncrease()
            && !inp.OneName() && !inp.ReadsBack()
  {
    hide Input.ReadsBack, Input.OneName, Input.Named, Input.AllAccepted, Input.RunsIncrease, RunsUpTo,
         SortDistinct, Position;
    var inp := Input(TimeType.Date32, [0, 0], [Some([65]), Some([66])], [1, 2]);
    OneRunOnly(inp);
    SortedPair(inp.times);
    PositionUnique([1, 2], 0);
    PositionUnique([1, 2], 1);
    assert inp.StringAt(1) == Some([66]) && inp.StringAt(0) == Some([65]) && [65 as nat][0] != [66 as nat][0];
    BuildExact(inp);
  }

  lemma SortedPair(s: seq<nat>)
    requires s == [1, 2]
    ensures SortDistinct(s) == [1, 2]
  {
    assert s[..1] == [1] && [1][..0] == [];
    assert SortDistinct([1]) == [1];
    assert InsertDistinct(2, []) == [2];
  }

  lemma SortedSample(s: seq<nat>)
    requires s == [1, 3, 2, 4]
    ensures SortDistinct(s) == [1, 2, 3, 4]
  {
    assert s[..3] == [1, 3, 2] && [1, 3, 2][..2] == [1, 3] && [1, 3][..1] == [1] && [1][..0] == [];
    assert SortDistinct([1]) == [1];
    assert SortDistinct([1, 3]) == InsertDistinct(3, [1]) == [1, 3];
    assert InsertDistinct(2, [3]) == [2, 3];
    assert SortDistinct([1, 3, 2]) == InsertDistinct(2, [1, 3]) == [1, 2, 3];
    assert InsertDistinct(4, [3]) == [3, 4];
    assert InsertDistinct(4, [2, 3]) == [2] + InsertDistinct(4, [3]) == [2, 3, 4];
    assert InsertDistinct(4, [1, 2, 3]) == [1] + InsertDistinct(4, [2, 3]);
  }

  lemma {:induction false} OneRun(k: seq<nat>, n: nat)
    requires 0 < n <= |k| && forall i :: 0 <= i < |k| ==> k[i] == 0
    ensures RunsUpTo(k, n) == [Run(0, n)]
  {
    if n > 1 { OneRun(k, n - 1); }
  }

  // ----- the build loops

  datatype SymRun = SymRun(rowStart: nat, timeFirst: nat, timeLast: nat, rows: nat)

  ghost predicate Scanned(inp: Input, i: nat, runs: seq<SymRun>, names: seq<Str>)
    requires |inp.keys| == |inp.times| && i <= |inp.keys|
  {
    var r := RunsUpTo(inp.keys, i);
    && |runs| == |r| == |names|
    && forall j :: 0 <= j < |r| ==>
         && Uniform(inp.keys, i, r[j])
         && runs[j] == SymRun(r[j].start, inp.times[r[j].start], inp.times[r[j].End() - 1], r[j].len)
         && inp.StringAt(r[j].start) == Some(names[j])
  }

  /** Collects runs, sorts the axis, and places every run on it. */
  method BuildIndex(inp: Input) returns (r: Result<Index>)
    requires inp.Typed()
    ensures r.Ok? <==> inp.Shaped() && inp.Named() && inp.AllAccepted()
    ensures r.Ok? ==> r.value == inp.Result()
    ensures inp.Shaped() && inp.Named() && !inp.AllAccepted() ==> r == Err(NonContiguousTime)
  {
    hide Scanned, Input.Named, Input.AllAccepted, RunsUpTo, SortDistinct;
    if |inp.keys| != |inp.times| { return Err(Invalid); }
    if |inp.keys| == 0 { return Err(Invalid); }
    var scanned := ScanRuns(inp);
    if scanned.Err? { return Err(scanned.error); }
    var (symRuns, names) := scanned.value;
    var axis := SortDistinct(inp.times);
    var placed := PlaceRuns(inp, axis, symRuns, names);
    if placed.Err? { return Err(placed.error); }
    return Ok(Index(inp.tt, axis, names, placed.value));
  }

  /** One run of the scan against the same run of the specification. */
  lemma ScannedRun(inp: Input, symRuns: seq<SymRun>, names: seq<Str>, j: nat)
    requires inp.Shaped() && Scanned(inp, |inp.keys|, symRuns, names) && j < |inp.Runs()|
    ensures |symRuns| == |inp.Runs()| && Uniform(inp.keys, |inp.keys|, inp.Runs()[j])
    ensures var t := inp.Times(inp.Runs()[j]);
            symRuns[j] == SymRun(inp.Runs()[j].start, t[0], t[|t| - 1], |t|)
  {
  }

  lemma RecordsMore(inp: Input, n: nat)
    requires inp.Shaped() && n < |inp.Runs()|
    ensures Uniform(inp.keys, |inp.keys|, inp.Runs()[n])
    ensures inp.Records(n + 1)
         == inp.Records(n) + [SymRecord(Position(inp.Axis(), inp.Times(inp.Runs()[n])[0]), inp.Runs()[n].len, inp.Runs()[n].start)]
  {
    hide RunsUpTo, Position, SortDistinct;
    RunShape(inp, n);
  }

  /** Placing one run: its ends are on the axis, and the length check is the span check. */
  lemma PlacedRun(inp: Input, symRuns: seq<SymRun>, names: seq<Str>, j: nat)
    requires inp.Shaped() && Scanned(inp, |inp.keys|, symRuns, names) && j < |inp.Runs()|
    ensures |symRuns| == |inp.Runs()| && Uniform(inp.keys, |inp.keys|, inp.Runs()[j])
    ensures var run, axis := symRuns[j], inp.Axis();
            && run.timeFirst in axis && run.timeLast in axis && run.rows == inp.Runs()[j].len
            && (inp.Accepts(inp.Runs()[j]) <==>
                  Position(axis, run.timeLast) >= Position(axis, run.timeFirst)
                  && Position(axis, run.timeLast) - Position(axis, run.timeFirst) + 1 == run.rows)
    ensures inp.Records(j + 1)
         == inp.Records(j) + [SymRecord(Position(inp.Axis(), symRuns[j].timeFirst), inp.Runs()[j].len, inp.Runs()[j].start)]
  {
    hide RunsUpTo, RunsOf, SortDistinct, Position, Scanned, Input.Records;
    RunShape(inp, j);
    ScannedRun(inp, symRuns, names, j);
    RecordsMore(inp, j);
  }

  method PlaceRuns(inp: Input, axis: seq<nat>, symRuns: seq<SymRun>, ghost names: seq<Str>) returns (r: Result<seq<SymRecord>>)
    requires inp.Shaped() && axis == inp.Axis() && Scanned(inp, |inp.keys|, symRuns, names)
    ensures r == if inp.AllAccepted() then Ok(inp.Records(|inp.Runs()|)) else Err(NonContiguousTime)
  {
    hide RunsUpTo, RunsOf, SortDistinct, Position, Scanned, Input.Records, Input.Accepts, Input.Times;
    var rowStart, recs := 0, [];
    ghost var runs := inp.Runs();
    RecordsNone(inp);
    RunShape(inp, 0);
    ScannedRun(inp, symRuns, names, 0);
    for ri := 0 to |symRuns|
      invariant rowStart == if ri < |runs| then runs[ri].start else |inp.keys|
      invariant recs == inp.Records(ri)
      invariant forall j :: 0 <= j < ri ==> Uniform(inp.keys, |inp.keys|, runs[j]) && inp.Accepts(runs[j])
    {
      RunShape(inp, ri);
      PlacedRun(inp, symRuns, names, ri);
      var run := symRuns[ri];
      var start, end := Position(axis, run.timeFirst), Position(axis, run.timeLast);
      if end < start || end - start + 1 != run.rows {
        assert !inp.Accepts(runs[ri]);
        return Err(NonContiguousTime);
      }
      var span := end - start + 1;
      recs := recs + [SymRecord(start, span, rowStart)];
      rowStart := rowStart + span;
    }
    return Ok(recs);
  }

  method ScanRuns(inp: Input) returns (r: Result<(seq<SymRun>, seq<Str>)>)
    requires |inp.keys| == |inp.times| > 0
    ensures r.Ok? <==> inp.Named()
    ensures r.Ok? ==> Scanned(inp, |inp.keys|, r.value.0, r.value.1) && r.value.1 == inp.Names(|inp.Runs()|)
  {
    hide Scanned, Input.Named, RunsUpTo, RunsOf;
    var runs, names := [], [];
    ScanStart(inp);
    for i := 0 to |inp.keys|
      invariant Scanned(inp, i, runs, names)
      invariant |runs| == |names| && forall j :: 0 <= j < |runs| ==> runs[j].rowStart < i
    {
      if runs == [] || inp.keys[i] != inp.keys[runs[|runs| - 1].rowStart] {
        var name := inp.StringAt(i);
        if name.None? {
          FirstOfRun(inp, i, runs, names);
          UnnamedRun(inp, i);
          return Err(Invalid);
        }
        ScanNew(inp, i, runs, names);
        runs := runs + [SymRun(i, inp.times[i], inp.times[i], 1)];
        names := names + [name.value];
      } else {
        var last := runs[|runs| - 1];
        ScanSame(inp, i, runs, names);
        runs := runs[|runs| - 1 := SymRun(last.rowStart, last.timeFirst, inp.times[i], last.rows + 1)];
      }
    }
    ScanEnd(inp, runs, names);
    return Ok((runs, names));
  }

  lemma ScanStart(inp: Input)
    requires |inp.keys| == |inp.times|
    ensures Scanned(inp, 0, [], [])
  {
  }

  lemma ScanNew(inp: Input, i: nat, runs: seq<SymRun>, names: seq<Str>)
    requires |inp.keys| == |inp.times| && i < |inp.keys| && Scanned(inp, i, runs, names)
    requires forall j :: 0 <= j < |runs| ==> runs[j].rowStart < i
    requires runs == [] || inp.keys[i] != inp.keys[runs[|runs| - 1].rowStart]
    requires inp.StringAt(i).Some?
    ensures Scanned(inp, i + 1, runs + [SymRun(i, inp.times[i], inp.times[i], 1)], names + [inp.StringAt(i).value])
  {
    hide RunsOf;
    var r := RunsUpTo(inp.keys, i);
    assert r != [] ==> runs[|r| - 1].rowStart == r[|r| - 1].start;
    var next := RunsUpTo(inp.keys, i + 1);
    assert next == r + [Run(i, 1)];
    forall j | 0 <= j < |next|
      ensures Uniform(inp.keys, i + 1, next[j])
    {
      if j < |r| { assert Uniform(inp.keys, i, r[j]); }
    }
  }

  lemma ScanSame(inp: Input, i: nat, runs: seq<SymRun>, names: seq<Str>)
    requires |inp.keys| == |inp.times| && i < |inp.keys| && Scanned(inp, i, runs, names) && runs != []
    requires runs[|runs| - 1].rowStart < i
    requires inp.keys[i] == inp.keys[runs[|runs| - 1].rowStart]
    ensures var last := runs[|runs| - 1];
            Scanned(inp, i + 1, runs[|runs| - 1 := SymRun(last.rowStart, last.timeFirst, inp.times[i], last.rows + 1)], names)
  {
    var r := RunsUpTo(inp.keys, i);
    var m := |r| - 1;
    assert runs[m].rowStart == r[m].start;
    var next := RunsUpTo(inp.keys, i + 1);
    assert next == r[m := Run(r[m].start, r[m].len + 1)];
    assert r[m].End() == i;
    hide RunsOf;
    forall j | 0 <= j < |next|
      ensures Uniform(inp.keys, i + 1, next[j])
    {
      assert Uniform(inp.keys, i, r[j]);
    }
  }

  lemma ScanEnd(inp: Input, runs: seq<SymRun>, names: seq<Str>)
    requires |inp.keys| == |inp.times| && Scanned(inp, |inp.keys|, runs, names)
    ensures inp.Named() && names == inp.Names(|inp.Runs()|)
  {
  }

  lemma FirstOfRun(inp: Input, i: nat, runs: seq<SymRun>, names: seq<Str>)
    requires |inp.keys| == |inp.times| && i < |inp.keys| && Scanned(inp, i, runs, names)
    requires runs == [] || inp.keys[i] != inp.keys[runs[|runs| - 1].rowStart]
    ensures i > 0 ==> inp.keys[i - 1] != inp.keys[i]
  {
    var r := RunsUpTo(inp.keys, i);
    if i > 0 {
      assert Uniform(inp.keys, i, r[|r| - 1]) && runs[|r| - 1].rowStart == r[|r| - 1].start;
      assert inp.keys[i - 1] == inp.keys[r[|r| - 1].start];
    }
  }

  /** A row whose key differs from the one before starts a run. */
  lemma UnnamedRun(inp: Input, i: nat)
    requires i < |inp.keys| && inp.StringAt(i).None? && (i > 0 ==> inp.keys[i - 1] != inp.keys[i])
    ensures !inp.Named()
  {
    var runs := inp.Runs();
    var j := RunsCover(inp.keys, |inp.keys|, runs, i, |runs| - 1);
    assert Uniform(inp.keys, |inp.keys|, runs[j]);
    assert inp.keys[i] == inp.keys[runs[j].start] && (i > 0 ==> inp.keys[i - 1] != inp.keys[i]);
    assert runs[j].start == i;
  }
}
