/** Which inputs a table write accepts, in terms of the input's own rows. */
module AcceptedWrite {
  import opened Formats
  import opened Meta
  import opened MetaLocate
  import opened Order
  import opened Partitions
  import opened Runs
  import opened Spans
  import opened WriteTable

  /** Input row `i` goes to a grid row of its own partition with its symbol and its time, a
      negative time standing for the pattern 2^64 above it. */
  lemma HitMeaning(ps: Parts, inp: Input, scheme: Scheme, tt: TimeType, n: Name, g: nat, i: nat)
    requires PartsValid(ps) && inp.Shaped() && inp.SignedTimes() && n in ps && i < |inp.times| && inp.syms[i].Some?
    ensures Hits(ps, inp, scheme, tt, n, g, i) <==>
              && PartitionName(scheme, inp.times[i], tt) == n && g < |ps[n].idx.Rows()|
              && IsKey(ps[n].idx.Rows()[g], Key(inp.syms[i].value, inp.times[i]))
  {
    hide PartitionName, Index.Rows;
    GridLength(ps[n].idx);
    PatternIs(inp.times[i]);
  }

  /** Row `i`'s key is in its partition. */
  ghost predicate Found(ps: Parts, inp: Input, scheme: Scheme, tt: TimeType, i: nat)
    requires PartsValid(ps) && inp.Shaped() && i < |inp.times| && PartitionName(scheme, inp.times[i], tt) in ps
  {
    exists g: nat :: Hits(ps, inp, scheme, tt, PartitionName(scheme, inp.times[i], tt), g, i)
  }

  /** Two rows of one symbol and one partition, before the epoch and not. */
  predicate StepsOver(inp: Input, scheme: Scheme, tt: TimeType, i: nat, j: nat)
    requires inp.Shaped() && i < |inp.times| && j < |inp.times|
  {
    && inp.syms[i] == inp.syms[j] && inp.times[i] < 0 <= inp.times[j]
    && PartitionName(scheme, inp.times[i], tt) == PartitionName(scheme, inp.times[j], tt)
  }

  lemma {:induction false} RunRowsIncrease(runs: seq<Run>)
    requires Apart(runs)
    ensures Increasing(RunRows(runs))
  {
    if runs != [] {
      var m := |runs| - 1;
      RunRowsIncrease(runs[..m]);
      forall i | 0 <= i < |RunRows(runs[..m])|
        ensures RunRows(runs[..m])[i] < runs[m].start
      {
        RunRowsMember(runs[..m], RunRows(runs[..m])[i]);
      }
    }
  }

  /** Between two rows of one symbol there are only rows of that symbol. */
  lemma SameBetween(syms: seq<Option<Str>>, times: seq<int>, i: nat, m: nat, j: nat)
    requires |syms| == |times| && StrictlySorted(syms, times) && i < m < j < |syms| && syms[i] == syms[j]
    ensures syms[m] == syms[i]
  {
    hide LexLess;
    SortedPair(syms, times, i, m);
    SortedPair(syms, times, m, j);
    if LexLess(syms[i].value, syms[m].value) { LexAsymmetric(syms[i].value, syms[m].value); }
  }

  ghost predicate Rising(inp: Input, rows: seq<nat>)
    requires inp.Shaped() && forall k :: 0 <= k < |rows| ==> rows[k] < |inp.times|
  {
    forall k :: 0 < k < |rows| && inp.syms[rows[k - 1]] == inp.syms[rows[k]] ==>
      AsU64(inp.times[rows[k - 1]]) < AsU64(inp.times[rows[k]])
  }

  lemma {:induction false} ChainRises(inp: Input, rows: seq<nat>, p: nat, q: nat)
    requires inp.Shaped() && StrictlySorted(inp.syms, inp.times) && Increasing(rows)
    requires (forall k :: 0 <= k < |rows| ==> rows[k] < |inp.times|) && Rising(inp, rows)
    requires p < q < |rows| && inp.syms[rows[p]] == inp.syms[rows[q]]
    ensures AsU64(inp.times[rows[p]]) < AsU64(inp.times[rows[q]])
  {
    hide AsU64, StrictlySorted;
    if p < q - 1 {
      SameBetween(inp.syms, inp.times, rows[p], rows[q - 1], rows[q]);
      ChainRises(inp, rows, p, q - 1);
    }
  }

  /** The locator's demands on the rows of one partition. */
  lemma RowsLocatable(idx: Index, inp: Input, runs: seq<Run>)
    requires idx.Valid() && inp.Shaped() && inp.SignedTimes() && StrictlySorted(inp.syms, inp.times) && Apart(runs)
    requires forall k :: 0 <= k < |RunRows(runs)| ==> RunRows(runs)[k] < |inp.times|
    ensures Locatable(idx, inp, runs) <==>
              && (forall i :: i in RunRows(runs) ==> Present(idx, inp.KeyAt(i)))
              && (forall i, j :: i in RunRows(runs) && j in RunRows(runs) && i < j && inp.syms[i] == inp.syms[j] ==>
                    !(inp.times[i] < 0 <= inp.times[j]))
  {
    hide RunRows, Present, LexLess, Apart, Increasing, StrictlySorted, AsU64;
    var rows := RunRows(runs);
    RunRowsIncrease(runs);
    if Locatable(idx, inp, runs) {
      RisingRows(idx, inp, runs);
      forall i, j | i in rows && j in rows && i < j && inp.syms[i] == inp.syms[j]
        ensures !(inp.times[i] < 0 <= inp.times[j])
      {
        var p :| 0 <= p < |rows| && rows[p] == i;
        var q :| 0 <= q < |rows| && rows[q] == j;
        Positions(rows, p, q);
        ChainRises(inp, rows, p, q);
        PatternIs(inp.times[i]);
        PatternIs(inp.times[j]);
      }
    }
    forall k | 0 < k < |rows|
      ensures var a, b := inp.KeyAt(rows[k - 1]), inp.KeyAt(rows[k]);
              && KeyBefore(a, b)
              && (inp.syms[rows[k - 1]] == inp.syms[rows[k]] <==> a.sym == b.sym)
              && (a.sym == b.sym ==> (AsU64(a.time) < AsU64(b.time) <==> !(a.time < 0 <= b.time)))
    {
      Neighbours(inp, rows, k);
    }
  }

  lemma RisingRows(idx: Index, inp: Input, runs: seq<Run>)
    requires idx.Valid() && inp.Shaped() && StrictlySorted(inp.syms, inp.times) && Locatable(idx, inp, runs)
    requires forall k :: 0 <= k < |RunRows(runs)| ==> RunRows(runs)[k] < |inp.times|
    ensures Rising(inp, RunRows(runs))
  {
    hide RunRows, Present, LexLess, AsU64;
  }

  lemma Positions(rows: seq<nat>, p: nat, q: nat)
    requires Increasing(rows) && p < |rows| && q < |rows| && rows[p] < rows[q]
    ensures p < q
  {
  }

  /** Neighbours in the list are in key order; their patterns rise unless they step over zero. */
  lemma Neighbours(inp: Input, rows: seq<nat>, k: nat)
    requires inp.Shaped() && inp.SignedTimes() && StrictlySorted(inp.syms, inp.times) && Increasing(rows)
    requires 0 < k < |rows| && forall k :: 0 <= k < |rows| ==> rows[k] < |inp.times|
    ensures var a, b := inp.KeyAt(rows[k - 1]), inp.KeyAt(rows[k]);
            && KeyBefore(a, b)
            && (inp.syms[rows[k - 1]] == inp.syms[rows[k]] <==> a.sym == b.sym)
            && (a.sym == b.sym ==> (AsU64(a.time) < AsU64(b.time) <==> !(a.time < 0 <= b.time)))
  {
    hide LexLess, AsU64;
    SortedPair(inp.syms, inp.times, rows[k - 1], rows[k]);
    LexIrreflexive(inp.syms[rows[k]].value);
    PatternIs(inp.times[rows[k - 1]]);
    PatternIs(inp.times[rows[k]]);
  }

  /** What a partition's index has of the partition's input rows. */
  lemma PartLocatable(ps: Parts, inp: Input, scheme: Scheme, tt: TimeType, b: Buckets, n: Name)
    requires PartsValid(ps) && inp.Shaped() && inp.SignedTimes() && StrictlySorted(inp.syms, inp.times)
    requires SpansOf(scheme, inp.times, tt, b) && n in b && n in ps
    ensures Locatable(ps[n].idx, inp, b[n]) <==>
              && (forall i: nat | i < |inp.times| && PartitionName(scheme, inp.times[i], tt) == n :: Found(ps, inp, scheme, tt, i))
              && (forall i: nat, j: nat | i < j < |inp.times| && PartitionName(scheme, inp.times[i], tt) == n :: !StepsOver(inp, scheme, tt, i, j))
  {
    hide PartitionName, SpansOf, RunRows, Present, Hits, Locatable, StrictlySorted, Index.Rows, Part.Valid, PartsValid;
    forall i
      ensures i in RunRows(b[n]) <==> 0 <= i < |inp.times| && PartitionName(scheme, inp.times[i], tt) == n
    {
      if i >= 0 { RunRowsAre(scheme, inp.times, tt, b, n, i); }
    }
    forall k | 0 <= k < |RunRows(b[n])|
      ensures RunRows(b[n])[k] < |inp.times|
    {
      assert RunRows(b[n])[k] in RunRows(b[n]);
    }
    SpansOwn(scheme, inp.times, tt, b, n);
    IndexOf(ps, n);
    RowsLocatable(ps[n].idx, inp, b[n]);
    forall i: nat | i < |inp.times| && PartitionName(scheme, inp.times[i], tt) == n
      ensures Found(ps, inp, scheme, tt, i) <==> Present(ps[n].idx, inp.KeyAt(i))
    {
      FoundIs(ps, inp, scheme, tt, i);
    }
    if Locatable(ps[n].idx, inp, b[n]) {
      forall i: nat, j: nat | i < j < |inp.times| && PartitionName(scheme, inp.times[i], tt) == n
        ensures !StepsOver(inp, scheme, tt, i, j)
      {
        if PartitionName(scheme, inp.times[j], tt) == n { assert i in RunRows(b[n]) && j in RunRows(b[n]); }
      }
      forall i: nat | i < |inp.times| && PartitionName(scheme, inp.times[i], tt) == n
        ensures Found(ps, inp, scheme, tt, i)
      {
        assert i in RunRows(b[n]);
      }
    } else if forall i: nat | i < |inp.times| && PartitionName(scheme, inp.times[i], tt) == n :: Found(ps, inp, scheme, tt, i) {
      var i, j :| i in RunRows(b[n]) && j in RunRows(b[n]) && i < j && inp.syms[i] == inp.syms[j] && inp.times[i] < 0 <= inp.times[j];
      assert StepsOver(inp, scheme, tt, i, j);
    }
  }

  lemma IndexOf(ps: Parts, n: Name)
    requires PartsValid(ps) && n in ps
    ensures ps[n].idx.Valid()
  {
  }

  lemma FoundIs(ps: Parts, inp: Input, scheme: Scheme, tt: TimeType, i: nat)
    requires PartsValid(ps) && inp.Shaped() && i < |inp.times| && PartitionName(scheme, inp.times[i], tt) in ps
    ensures var n := PartitionName(scheme, inp.times[i], tt);
            ps[n].idx.Valid() && (Found(ps, inp, scheme, tt, i) <==> Present(ps[n].idx, inp.KeyAt(i)))
  {
    hide PartitionName, Index.Rows;
    var n := PartitionName(scheme, inp.times[i], tt);
    GridLength(ps[n].idx);
    if Present(ps[n].idx, inp.KeyAt(i)) {
      var g: nat :| g < |ps[n].idx.Rows()| && ps[n].idx.Rows()[g] == RowOfKey(inp.KeyAt(i));
      assert Hits(ps, inp, scheme, tt, n, g, i);
    }
  }

  /** An input is accepted if and only if it is strictly sorted, every row's key is in the row's
      own partition, and no symbol has rows before and after the epoch in one partition. */
  lemma AcceptsMeaning(t: TableHandle, inp: Input)
    requires PartsValid(t.parts) && inp.Shaped() && inp.SignedTimes()
    requires forall i :: 0 <= i < |inp.times| ==> PartitionName(t.scheme, inp.times[i], t.tt) in t.parts
    ensures t.Accepts(inp) <==>
              && StrictlySorted(inp.syms, inp.times)
              && (forall i: nat | i < |inp.times| :: Found(t.parts, inp, t.scheme, t.tt, i))
              && (forall i: nat, j: nat | i < j < |inp.times| :: !StepsOver(inp, t.scheme, t.tt, i, j))
  {
    hide PartitionName, SpansOf, Locatable, StrictlySorted, PartsValid, Found, StepsOver;
    var b := SpansExist(t.scheme, inp.times, t.tt);
    SpansUnique(t.parts, inp, t.scheme, t.tt, b);
    BucketsKnown(t.parts, inp, t.scheme, t.tt, b);
    assert t.Accepts(inp) <==> StrictlySorted(inp.syms, inp.times) && AllLocatable(t.parts, inp, b);
    if StrictlySorted(inp.syms, inp.times) { AllFound(t.parts, inp, t.scheme, t.tt, b); }
  }

  lemma AllFound(ps: Parts, inp: Input, scheme: Scheme, tt: TimeType, b: Buckets)
    requires PartsValid(ps) && inp.Shaped() && inp.SignedTimes() && StrictlySorted(inp.syms, inp.times)
    requires SpansOf(scheme, inp.times, tt, b) && b.Keys <= ps.Keys
    requires forall i :: 0 <= i < |inp.times| ==> PartitionName(scheme, inp.times[i], tt) in ps
    ensures AllLocatable(ps, inp, b) <==>
              && (forall i: nat | i < |inp.times| :: Found(ps, inp, scheme, tt, i))
              && (forall i: nat, j: nat | i < j < |inp.times| :: !StepsOver(inp, scheme, tt, i, j))
  {
    hide PartitionName, SpansOf, Locatable, StrictlySorted, PartsValid, Found, StepsOver;
    forall n | n in b
      ensures n in ps && ps[n].idx.Valid()
    {
      IndexOf(ps, n);
    }
    if AllLocatable(ps, inp, b) {
      forall i: nat | i < |inp.times|
        ensures Found(ps, inp, scheme, tt, i)
      {
        var k := SpansCover(scheme, inp.times, tt, b, i);
        PartLocatable(ps, inp, scheme, tt, b, PartitionName(scheme, inp.times[i], tt));
      }
      forall i: nat, j: nat | i < j < |inp.times|
        ensures !StepsOver(inp, scheme, tt, i, j)
      {
        var k := SpansCover(scheme, inp.times, tt, b, i);
        PartLocatable(ps, inp, scheme, tt, b, PartitionName(scheme, inp.times[i], tt));
      }
    } else {
      var n :| n in b && !Locatable(ps[n].idx, inp, b[n]);
      PartLocatable(ps, inp, scheme, tt, b, n);
    }
  }

  lemma SpansExist(scheme: Scheme, times: seq<int>, tt: TimeType) returns (b: Buckets)
    ensures SpansOf(scheme, times, tt, b)
  {
    hide PartitionName, PartitionKey, RunsUpTo, RunsNamed, Bucketed;
    var keys := Keys(scheme, times, tt);
    var runs := RunsUpTo(keys, |times|);
    forall k | 0 <= k < |runs|
      ensures runs[k].start < |times|
    {
      assert Uniform(keys, |times|, runs[k]);
    }
    b := map[];
    BucketNone(scheme, times, tt);
    assert runs[..0] == [];
    for k := 0 to |runs|
      invariant Bucketed(scheme, times, tt, runs[..k], b)
    {
      BucketMore(scheme, times, tt, runs[..k], b, runs[k]);
      assert runs[..k] + [runs[k]] == runs[..k + 1];
      b := AddRun(b, PartitionName(scheme, times[runs[k].start], tt), runs[k]);
    }
    assert runs[..|runs|] == runs;
  }
}
