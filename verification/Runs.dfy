/** Maximal runs of equal keys in a list. */
module Runs {

  datatype Run = Run(start: nat, len: nat) {
    function End(): nat { start + len }
  }

  /** `runs` cuts the first `n` keys into maximal runs of equal keys, in order. */
  ghost predicate RunsOf<T>(k: seq<T>, n: nat, runs: seq<Run>) {
    && n <= |k|
    && (n == 0 <==> runs == [])
    && (runs != [] ==> runs[0].start == 0 && runs[|runs| - 1].End() == n)
    && (forall j :: 0 <= j < |runs| ==> Uniform(k, n, runs[j]))
    && (forall j :: 0 < j < |runs| ==> runs[j].start == runs[j - 1].End() && k[runs[j].start] != k[runs[j - 1].start])
  }

  ghost predicate Uniform<T>(k: seq<T>, n: nat, r: Run)
    requires n <= |k|
  {
    r.len > 0 && r.End() <= n && forall i :: r.start <= i < r.End() ==> k[i] == k[r.start]
  }

  /** One row after another: a key equal to the current run's lengthens it, any other starts a run. */
  function RunsUpTo<T(==)>(k: seq<T>, n: nat): (r: seq<Run>)
    requires n <= |k|
    ensures RunsOf(k, n, r)
  {
    if n == 0 then [] else
      var r := RunsUpTo(k, n - 1);
      ExtendRun(k, n - 1, r);
      NewRun(k, n - 1, r);
      if r != [] && k[r[|r| - 1].start] == k[n - 1]
      then r[|r| - 1 := Run(r[|r| - 1].start, r[|r| - 1].len + 1)]
      else r + [Run(n - 1, 1)]
  }

  lemma ExtendRun<T>(k: seq<T>, n: nat, runs: seq<Run>)
    requires RunsOf(k, n, runs) && n < |k|
    ensures runs != [] && k[runs[|runs| - 1].start] == k[n] ==>
              RunsOf(k, n + 1, runs[|runs| - 1 := Run(runs[|runs| - 1].start, runs[|runs| - 1].len + 1)])
  {
    if runs != [] && k[runs[|runs| - 1].start] == k[n] {
      var m := |runs| - 1;
      var next := runs[m := Run(runs[m].start, runs[m].len + 1)];
      forall j | 0 <= j < |next|
        ensures Uniform(k, n + 1, next[j])
      {
        assert Uniform(k, n, runs[j]);
      }
    }
  }

  lemma NewRun<T>(k: seq<T>, n: nat, runs: seq<Run>)
    requires RunsOf(k, n, runs) && n < |k|
    ensures runs == [] || k[runs[|runs| - 1].start] != k[n] ==> RunsOf(k, n + 1, runs + [Run(n, 1)])
  {
    var next := runs + [Run(n, 1)];
    forall j | 0 <= j < |next|
      ensures Uniform(k, n + 1, next[j])
    {
      if j < |runs| { assert Uniform(k, n, runs[j]); }
    }
  }

  lemma {:induction false} RunsOrdered<T>(k: seq<T>, n: nat, runs: seq<Run>, i: nat, j: nat)
    requires RunsOf(k, n, runs) && i < j < |runs|
    ensures runs[i].End() <= runs[j].start
  {
    assert Uniform(k, n, runs[j - 1]);
    if i + 1 < j { RunsOrdered(k, n, runs, i, j - 1); }
  }

  /** Every row lies in a run. */
  lemma {:induction false} RunsCover<T>(k: seq<T>, n: nat, runs: seq<Run>, row: nat, m: nat) returns (j: nat)
    requires RunsOf(k, n, runs) && m < |runs| && row < runs[m].End()
    ensures j <= m && runs[j].start <= row < runs[j].End()
  {
    if row >= runs[m].start { j := m; } else { j := RunsCover(k, n, runs, row, m - 1); }
  }
}
