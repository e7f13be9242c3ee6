/** Splitting input rows by partition: maximal runs of rows of one partition, gathered
    under the partition's name. */
module Spans {
  import opened Calendar
  import opened Formats
  import opened Meta
  import opened Order
  import opened Partitions
  import opened Runs

  /** An integer that tells partitions apart without building their names. */
  function PartitionKey(scheme: Scheme, value: int, tt: TimeType): int {
    match scheme
    case ByDate => ValueToDays(value, tt)
    case ByYear => CivilFromDays(ValueToDays(value, tt)).y
    case ByMonth => (var t := CivilFromDays(ValueToDays(value, tt)); t.y * 12 + t.m - 1)
    case Unpartitioned => 0
  }

  /** Two times have the same key exactly when their partitions have the same name. */
  lemma KeyMeansName(scheme: Scheme, v: int, w: int, tt: TimeType)
    ensures PartitionKey(scheme, v, tt) == PartitionKey(scheme, w, tt)
        <==> PartitionName(scheme, v, tt) == PartitionName(scheme, w, tt)
  {
    hide CivilFromDays, DaysFromCivil;
    DayRoundTrip(ValueToDays(v, tt));
    DayRoundTrip(ValueToDays(w, tt));
  }

  function Keys(scheme: Scheme, times: seq<int>, tt: TimeType): (r: seq<int>)
    ensures |r| == |times| && forall i :: 0 <= i < |times| ==> r[i] == PartitionKey(scheme, times[i], tt)
  {
    seq(|times|, i requires 0 <= i < |times| => PartitionKey(scheme, times[i], tt))
  }

  /** The runs of one partition, in input order. */
  ghost function RunsNamed(scheme: Scheme, times: seq<int>, tt: TimeType, runs: seq<Run>, n: Name): (r: seq<Run>)
    requires forall k :: 0 <= k < |runs| ==> runs[k].start < |times|
  {
    if runs == [] then [] else
      var m := |runs| - 1;
      RunsNamed(scheme, times, tt, runs[..m], n)
      + (if PartitionName(scheme, times[runs[m].start], tt) == n then [runs[m]] else [])
  }

  type Buckets = map<Name, seq<Run>>

  /** Appends a run to its partition's list. */
  function AddRun(b: Buckets, n: Name, r: Run): Buckets {
    b[n := (if n in b then b[n] else []) + [r]]
  }

  /** Every partition with a run has a list, and it is all its runs in order. */
  ghost predicate Bucketed(scheme: Scheme, times: seq<int>, tt: TimeType, runs: seq<Run>, b: Buckets)
    requires forall k :: 0 <= k < |runs| ==> runs[k].start < |times|
  {
    forall n :: (n in b <==> RunsNamed(scheme, times, tt, runs, n) != []) && (n in b ==> b[n] == RunsNamed(scheme, times, tt, runs, n))
  }

  lemma BucketMore(scheme: Scheme, times: seq<int>, tt: TimeType, runs: seq<Run>, b: Buckets, r: Run)
    requires forall k :: 0 <= k < |runs| ==> runs[k].start < |times|
    requires r.start < |times| && Bucketed(scheme, times, tt, runs, b)
    ensures Bucketed(scheme, times, tt, runs + [r], AddRun(b, PartitionName(scheme, times[r.start], tt), r))
  {
    hide PartitionName, RunsNamed;
    var next, name := runs + [r], PartitionName(scheme, times[r.start], tt);
    forall n
      ensures RunsNamed(scheme, times, tt, next, n) == RunsNamed(scheme, times, tt, runs, n) + (if name == n then [r] else [])
    {
      NamedMore(scheme, times, tt, runs, r, n);
    }
  }

  lemma NamedMore(scheme: Scheme, times: seq<int>, tt: TimeType, runs: seq<Run>, r: Run, n: Name)
    requires forall k :: 0 <= k < |runs| ==> runs[k].start < |times|
    requires r.start < |times|
    ensures RunsNamed(scheme, times, tt, runs + [r], n)
         == RunsNamed(scheme, times, tt, runs, n) + (if PartitionName(scheme, times[r.start], tt) == n then [r] else [])
  {
    hide PartitionName;
    assert (runs + [r])[..|runs|] == runs;
  }

  /** The run under construction and the buckets of the finished ones. */
  ghost predicate Scanning(scheme: Scheme, times: seq<int>, tt: TimeType, i: nat, b: Buckets, key: Option<int>, first: int, start: nat, len: nat)
    requires i <= |times|
  {
    var runs := RunsUpTo(Keys(scheme, times, tt), i);
    && (forall k :: 0 <= k < |runs| ==> runs[k].start < |times|)
    && (i == 0 ==> key == None && b == map[])
    && (i > 0 ==>
          && runs != [] && runs[|runs| - 1] == Run(start, len) && start < |times|
          && key == Some(PartitionKey(scheme, times[start], tt)) && first == times[start]
          && Bucketed(scheme, times, tt, runs[..|runs| - 1], b))
  }

  lemma ScanningStart(scheme: Scheme, times: seq<int>, tt: TimeType)
    ensures Scanning(scheme, times, tt, 0, map[], None, 0, 0, 0)
  {
  }

  /** One row: the current run grows, or is filed and a new one begins. */
  lemma ScanningStep(scheme: Scheme, times: seq<int>, tt: TimeType, i: nat, b: Buckets, key: Option<int>, first: int, start: nat, len: nat)
    requires i < |times| && Scanning(scheme, times, tt, i, b, key, first, start, len)
    ensures var k := PartitionKey(scheme, times[i], tt);
            if key == Some(k) then Scanning(scheme, times, tt, i + 1, b, key, first, start, len + 1)
            else Scanning(scheme, times, tt, i + 1,
                          if key.Some? then AddRun(b, PartitionName(scheme, first, tt), Run(start, len)) else b,
                          Some(k), times[i], i, 1)
  {
    hide Scanning, PartitionKey, PartitionName, AddRun;
    if i == 0 { StepFirst(scheme, times, tt, b, key, first, start, len); }
    else if key == Some(PartitionKey(scheme, times[i], tt)) { StepSame(scheme, times, tt, i, b, key, first, start, len); }
    else { StepNew(scheme, times, tt, i, b, key, first, start, len); }
  }

  lemma StepFirst(scheme: Scheme, times: seq<int>, tt: TimeType, b: Buckets, key: Option<int>, first: int, start: nat, len: nat)
    requires 0 < |times| && Scanning(scheme, times, tt, 0, b, key, first, start, len)
    ensures key.None? && Scanning(scheme, times, tt, 1, b, Some(PartitionKey(scheme, times[0], tt)), times[0], 0, 1)
  {
    hide PartitionKey, PartitionName, Bucketed, RunsUpTo;
    var keys := Keys(scheme, times, tt);
    RunsStep(keys, 0);
    BucketNone(scheme, times, tt);
    assert RunsUpTo(keys, 1)[..0] == [];
  }

  lemma StepSame(scheme: Scheme, times: seq<int>, tt: TimeType, i: nat, b: Buckets, key: Option<int>, first: int, start: nat, len: nat)
    requires 0 < i < |times| && Scanning(scheme, times, tt, i, b, key, first, start, len)
    requires key == Some(PartitionKey(scheme, times[i], tt))
    ensures Scanning(scheme, times, tt, i + 1, b, key, first, start, len + 1)
  {
    hide PartitionKey, PartitionName, Bucketed, RunsUpTo;
    var keys := Keys(scheme, times, tt);
    RunsStep(keys, i);
    RunStarts(keys, i + 1);
    var m := |RunsUpTo(keys, i)| - 1;
    assert RunsUpTo(keys, i + 1)[..m] == RunsUpTo(keys, i)[..m];
  }

  lemma StepNew(scheme: Scheme, times: seq<int>, tt: TimeType, i: nat, b: Buckets, key: Option<int>, first: int, start: nat, len: nat)
    requires 0 < i < |times| && Scanning(scheme, times, tt, i, b, key, first, start, len)
    requires key != Some(PartitionKey(scheme, times[i], tt))
    ensures key.Some?
    ensures Scanning(scheme, times, tt, i + 1, AddRun(b, PartitionName(scheme, first, tt), Run(start, len)),
                     Some(PartitionKey(scheme, times[i], tt)), times[i], i, 1)
  {
    hide PartitionKey, PartitionName, Bucketed, RunsUpTo, AddRun;
    var keys := Keys(scheme, times, tt);
    RunsStep(keys, i);
    RunStarts(keys, i + 1);
    var runs := RunsUpTo(keys, i);
    var m := |runs| - 1;
    assert RunsUpTo(keys, i + 1)[..m + 1] == runs;
    assert runs[..m] + [runs[m]] == runs;
    BucketMore(scheme, times, tt, runs[..m], b, runs[m]);
  }

  lemma BucketNone(scheme: Scheme, times: seq<int>, tt: TimeType)
    ensures Bucketed(scheme, times, tt, [], map[])
  {
  }

  lemma RunsStep(keys: seq<int>, i: nat)
    requires i < |keys|
    ensures var runs, next := RunsUpTo(keys, i), RunsUpTo(keys, i + 1);
            && (i == 0 ==> runs == [] && next == [Run(0, 1)])
            && (i > 0 ==> (
                  && runs != [] && runs[|runs| - 1].start < |keys|
                  && var last := runs[|runs| - 1];
                     next == if keys[last.start] == keys[i] then runs[|runs| - 1 := Run(last.start, last.len + 1)] else runs + [Run(i, 1)]))
  {
    RunStarts(keys, i);
  }

  lemma RunStarts(keys: seq<int>, n: nat)
    requires n <= |keys|
    ensures forall k :: 0 <= k < |RunsUpTo(keys, n)| ==> RunsUpTo(keys, n)[k].start < |keys|
    ensures n > 0 ==> RunsUpTo(keys, n) != []
  {
    forall k | 0 <= k < |RunsUpTo(keys, n)|
      ensures RunsUpTo(keys, n)[k].start < |keys|
    {
      assert Uniform(keys, n, RunsUpTo(keys, n)[k]);
    }
  }

  /** What the spans of an input are. */
  ghost predicate SpansOf(scheme: Scheme, times: seq<int>, tt: TimeType, b: Buckets) {
    var runs := RunsUpTo(Keys(scheme, times, tt), |times|);
    (forall k :: 0 <= k < |runs| ==> runs[k].start < |times|) && Bucketed(scheme, times, tt, runs, b)
  }

  lemma ScanningEnd(scheme: Scheme, times: seq<int>, tt: TimeType, b: Buckets, key: Option<int>, first: int, start: nat, len: nat)
    requires Scanning(scheme, times, tt, |times|, b, key, first, start, len)
    ensures SpansOf(scheme, times, tt, if key.Some? then AddRun(b, PartitionName(scheme, first, tt), Run(start, len)) else b)
  {
    hide PartitionKey, PartitionName, RunsNamed;
    var keys := Keys(scheme, times, tt);
    var runs := RunsUpTo(keys, |times|);
    if |times| == 0 {
      BucketNone(scheme, times, tt);
    } else {
      var m := |runs| - 1;
      assert runs[..m] + [runs[m]] == runs;
      BucketMore(scheme, times, tt, runs[..m], b, runs[m]);
    }
  }

  /** The day and key computed last, kept so that equal days are not split again. */
  datatype Memo = Memo(days: Option<int>, key: int)

  ghost predicate MemoRight(m: Memo, scheme: Scheme) {
    m.days.Some? ==> m.key == KeyOfDays(scheme, m.days.value)
  }

  function KeyOfDays(scheme: Scheme, days: int): int {
    match scheme
    case ByDate => days
    case ByYear => CivilFromDays(days).y
    case ByMonth => (var t := CivilFromDays(days); t.y * 12 + t.m - 1)
    case Unpartitioned => 0
  }

  method ComputeKey(scheme: Scheme, t: int, tt: TimeType, memo: Memo) returns (key: int, memo': Memo)
    requires MemoRight(memo, scheme)
    ensures key == PartitionKey(scheme, t, tt) && MemoRight(memo', scheme)
  {
    hide CivilFromDays;
    if scheme.Unpartitioned? { return 0, memo; }
    var days := ValueToDays(t, tt);
    if memo.days == Some(days) { return memo.key, memo; }
    var k := KeyOfDays(scheme, days);
    return k, Memo(Some(days), k);
  }

  /** One pass over the time column. */
  method PartitionSpans(times: seq<int>, scheme: Scheme, tt: TimeType) returns (b: Buckets)
    ensures SpansOf(scheme, times, tt, b)
  {
    hide Scanning, SpansOf, PartitionKey, PartitionName, KeyOfDays;
    b := map[];
    var key: Option<int>, first, start, len, memo := None, 0, 0, 0, Memo(None, 0);
    ScanningStart(scheme, times, tt);
    for i := 0 to |times|
      invariant start >= 0 && len >= 0 && MemoRight(memo, scheme)
      invariant Scanning(scheme, times, tt, i, b, key, first, start, len)
    {
      ScanningStep(scheme, times, tt, i, b, key, first, start, len);
      var k, m := ComputeKey(scheme, times[i], tt, memo);
      memo := m;
      if key == Some(k) {
        len := len + 1;
      } else {
        if key.Some? { b := AddRun(b, PartitionName(scheme, first, tt), Run(start, len)); }
        key, first, start, len := Some(k), times[i], i, 1;
      }
    }
    ScanningEnd(scheme, times, tt, b, key, first, start, len);
    if key.Some? { b := AddRun(b, PartitionName(scheme, first, tt), Run(start, len)); }
  }

  // ----- the sorted input of a write

  predicate RowLess(s: Str, t: int, s': Str, t': int) {
    LexLess(s, s') || (s == s' && t < t')
  }

  /** Every symbol present, keys strictly increasing. */
  ghost predicate StrictlySorted(syms: seq<Option<Str>>, times: seq<int>)
    requires |syms| == |times|
  {
    && (forall i :: 0 <= i < |syms| ==> syms[i].Some?)
    && (forall i :: 0 <= i < |syms| - 1 ==> RowLess(syms[i].value, times[i], syms[i + 1].value, times[i + 1]))
  }

  /** A symbol in byte order before another, or the same one at an earlier time. */
  ghost predicate RowBefore(s: Str, t: int, s': Str, t': int) {
    if s == s' then t < t' else ByteOrder(s, s')
  }

  /** Strictly sorted: any two rows, not only neighbours, are in byte order of their symbols
      and, for one symbol, in time order, none twice. */
  lemma SortedMeaning(syms: seq<Option<Str>>, times: seq<int>)
    requires |syms| == |times|
    ensures StrictlySorted(syms, times) <==>
              && (forall i :: 0 <= i < |syms| ==> syms[i].Some?)
              && forall i, j :: 0 <= i < j < |syms| ==> RowBefore(syms[i].value, times[i], syms[j].value, times[j])
  {
    hide LexLess, ByteOrder;
    if forall i :: 0 <= i < |syms| ==> syms[i].Some? {
      forall i, j | 0 <= i < j < |syms|
        ensures RowLess(syms[i].value, times[i], syms[j].value, times[j])
            <==> RowBefore(syms[i].value, times[i], syms[j].value, times[j])
      {
        LexMeaning(syms[i].value, syms[j].value);
        LexIrreflexive(syms[i].value);
      }
      if StrictlySorted(syms, times) {
        forall i, j | 0 <= i < j < |syms|
          ensures RowLess(syms[i].value, times[i], syms[j].value, times[j])
        {
          SortedPair(syms, times, i, j);
        }
      }
    }
  }

  lemma {:induction false} SortedPair(syms: seq<Option<Str>>, times: seq<int>, i: nat, j: nat)
    requires |syms| == |times| && StrictlySorted(syms, times) && i < j < |syms|
    ensures RowLess(syms[i].value, times[i], syms[j].value, times[j])
  {
    hide LexLess;
    if i < j - 1 {
      SortedPair(syms, times, i, j - 1);
      var a, b, c := syms[i].value, syms[j - 1].value, syms[j].value;
      if LexLess(a, b) && LexLess(b, c) { LexTransitive(a, b, c); }
    }
  }

  /** `AB` comes before `B`, whatever the times. */
  lemma LongerFirst(times: seq<int>)
    requires |times| == 2
    ensures StrictlySorted([Some([65, 66]), Some([66])], times) && !StrictlySorted([Some([66]), Some([65, 66])], times)
  {
    LengthsDiffer();
    var names: seq<Str> := [[65], [65, 66], [66]];
    assert LexLess(names[1], names[2]);
    LexAsymmetric(names[1], names[2]);
    var back: seq<Option<Str>> := [Some(names[2]), Some(names[1])];
    assert !RowLess(back[0].value, times[0], back[1].value, times[1]);
  }

  /** The same pass, refusing an input that is not strictly sorted. */
  method ScanPartitionRuns(syms: seq<Option<Str>>, times: seq<int>, scheme: Scheme, tt: TimeType) returns (r: Result<Buckets>)
    requires |syms| == |times|
    ensures r.Ok? <==> StrictlySorted(syms, times)
    ensures r.Ok? ==> SpansOf(scheme, times, tt, r.value)
  {
    hide Scanning, SpansOf, PartitionKey, PartitionName, LexLess;
    var b: Buckets := map[];
    var key: Option<int>, first, start, len := None, 0, 0, 0;
    ScanningStart(scheme, times, tt);
    for i := 0 to |times|
      invariant start >= 0 && len >= 0
      invariant forall k :: 0 <= k < i ==> syms[k].Some?
      invariant forall k :: 0 <= k < i - 1 ==> RowLess(syms[k].value, times[k], syms[k + 1].value, times[k + 1])
      invariant Scanning(scheme, times, tt, i, b, key, first, start, len)
    {
      if syms[i].None? { return Err(Invalid); }
      if i > 0 {
        var ps, pt := syms[i - 1].value, times[i - 1];
        LexTotal(syms[i].value, ps);
        NotBoth(syms[i].value, ps);
        if LexLess(syms[i].value, ps) || (syms[i].value == ps && times[i] <= pt) {
          return Err(Invalid);
        }
      }
      ScanningStep(scheme, times, tt, i, b, key, first, start, len);
      var k := PartitionKey(scheme, times[i], tt);
      if key == Some(k) {
        len := len + 1;
      } else {
        if key.Some? { b := AddRun(b, PartitionName(scheme, first, tt), Run(start, len)); }
        key, first, start, len := Some(k), times[i], i, 1;
      }
    }
    ScanningEnd(scheme, times, tt, b, key, first, start, len);
    if key.Some? { b := AddRun(b, PartitionName(scheme, first, tt), Run(start, len)); }
    return Ok(b);
  }

  lemma NotBoth(a: Str, b: Str)
    ensures !(LexLess(a, b) && LexLess(b, a)) && (a == b ==> !LexLess(a, b))
  {
    LexIrreflexive(a);
    if LexLess(a, b) { LexAsymmetric(a, b); }
  }

  // ----- what the spans promise

  lemma {:induction false} NamedMember(scheme: Scheme, times: seq<int>, tt: TimeType, runs: seq<Run>, n: Name, r: Run)
    requires forall k :: 0 <= k < |runs| ==> runs[k].start < |times|
    ensures r in RunsNamed(scheme, times, tt, runs, n) <==> r in runs && PartitionName(scheme, times[r.start], tt) == n
  {
    hide PartitionName;
    if runs != [] {
      var m := |runs| - 1;
      assert runs == runs[..m] + [runs[m]];
      NamedMember(scheme, times, tt, runs[..m], n, r);
    }
  }

  /** Spans in order, with other rows between neighbours. */
  ghost predicate Apart(runs: seq<Run>) {
    forall j, k :: 0 <= j < k < |runs| ==> runs[j].End() < runs[k].start
  }

  lemma {:induction false} NamedApart(scheme: Scheme, times: seq<int>, tt: TimeType, m: nat, n: Name)
    requires m <= |RunsUpTo(Keys(scheme, times, tt), |times|)|
    requires forall k :: 0 <= k < m ==> RunsUpTo(Keys(scheme, times, tt), |times|)[k].start < |times|
    ensures Apart(RunsNamed(scheme, times, tt, RunsUpTo(Keys(scheme, times, tt), |times|)[..m], n))
  {
    hide PartitionName, PartitionKey, RunsUpTo;
    if m > 0 {
      var keys := Keys(scheme, times, tt);
      var runs := RunsUpTo(keys, |times|);
      NamedApart(scheme, times, tt, m - 1, n);
      assert runs[..m][..m - 1] == runs[..m - 1];
      var before := RunsNamed(scheme, times, tt, runs[..m - 1], n);
      if PartitionName(scheme, times[runs[m - 1].start], tt) == n {
        forall j | 0 <= j < |before|
          ensures before[j].End() < runs[m - 1].start
        {
          NamedMember(scheme, times, tt, runs[..m - 1], n, before[j]);
          var i :| 0 <= i < m - 1 && runs[..m - 1][i] == before[j];
          SameNameApart(scheme, times, tt, i, m - 1);
        }
      }
    }
  }

  /** Two runs of one partition do not touch: a run of another lies between them. */
  lemma SameNameApart(scheme: Scheme, times: seq<int>, tt: TimeType, i: nat, j: nat)
    requires var runs := RunsUpTo(Keys(scheme, times, tt), |times|);
             && i < j < |runs| && runs[i].start < |times| && runs[j].start < |times|
             && PartitionName(scheme, times[runs[i].start], tt) == PartitionName(scheme, times[runs[j].start], tt)
    ensures var runs := RunsUpTo(Keys(scheme, times, tt), |times|);
            runs[i].End() < runs[j].start
  {
    hide PartitionName, PartitionKey, RunsUpTo;
    var keys := Keys(scheme, times, tt);
    var runs := RunsUpTo(keys, |times|);
    KeyMeansName(scheme, times[runs[i].start], times[runs[j].start], tt);
    assert Uniform(keys, |times|, runs[i + 1]);
    if i + 1 < j { RunsOrdered(keys, |times|, runs, i + 1, j); }
    assert runs[i + 1].start == runs[i].End() && keys[runs[i + 1].start] != keys[runs[i].start];
  }

  predicate InSpan(r: Run, row: nat) { r.start <= row < r.End() }

  /** Every row of the span exists and belongs to the partition. */
  ghost predicate Owned(scheme: Scheme, times: seq<int>, tt: TimeType, n: Name, r: Run) {
    forall row: nat | InSpan(r, row) :: row < |times| && PartitionName(scheme, times[row], tt) == n
  }

  /** Every row of every span belongs to the span's partition; the spans of a partition
      are in input order and apart. */
  lemma SpansOwn(scheme: Scheme, times: seq<int>, tt: TimeType, b: Buckets, n: Name)
    requires SpansOf(scheme, times, tt, b) && n in b
    ensures Apart(b[n])
    ensures forall k :: 0 <= k < |b[n]| ==> Owned(scheme, times, tt, n, b[n][k])
  {
    hide PartitionName, PartitionKey, RunsUpTo, RunsNamed;
    var keys := Keys(scheme, times, tt);
    var runs := RunsUpTo(keys, |times|);
    assert runs[..|runs|] == runs;
    NamedApart(scheme, times, tt, |runs|, n);
    forall k | 0 <= k < |b[n]|
      ensures Owned(scheme, times, tt, n, b[n][k])
    {
      NamedMember(scheme, times, tt, runs, n, b[n][k]);
      var i :| 0 <= i < |runs| && runs[i] == b[n][k];
      assert Uniform(keys, |times|, runs[i]);
      forall row: nat | InSpan(b[n][k], row)
        ensures row < |times| && PartitionName(scheme, times[row], tt) == n
      {
        assert keys[row] == keys[runs[i].start];
        KeyMeansName(scheme, times[row], times[runs[i].start], tt);
      }
    }
  }

  /** Every input row lies in a span of its own partition. */
  lemma SpansCover(scheme: Scheme, times: seq<int>, tt: TimeType, b: Buckets, row: nat) returns (k: nat)
    requires SpansOf(scheme, times, tt, b) && row < |times|
    ensures var n := PartitionName(scheme, times[row], tt);
            n in b && k < |b[n]| && InSpan(b[n][k], row)
  {
    hide PartitionName, PartitionKey, RunsUpTo, RunsNamed;
    var keys := Keys(scheme, times, tt);
    var runs := RunsUpTo(keys, |times|);
    var i := RunsCover(keys, |times|, runs, row, |runs| - 1);
    assert Uniform(keys, |times|, runs[i]);
    assert keys[row] == keys[runs[i].start];
    KeyMeansName(scheme, times[row], times[runs[i].start], tt);
    var n := PartitionName(scheme, times[row], tt);
    NamedMember(scheme, times, tt, runs, n, runs[i]);
    assert runs[i] in RunsNamed(scheme, times, tt, runs, n);
    k :| 0 <= k < |b[n]| && b[n][k] == runs[i];
  }
}
