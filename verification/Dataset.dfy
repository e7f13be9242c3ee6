/** Scanning a dataset: the index narrows by symbol and time, each field filters its own
    values, and the row sets are intersected. */
module Dataset {
  import opened FieldEval
  import opened FieldScan
  import opened Formats
  import opened Meta
  import opened MetaLocate
  import opened MetaScan
  import opened MetaScanner
  import opened Order
  import opened Predicates
  import opened PredicateSplit
  import opened Ranges

  /** An index and its fields, one value per row of the grid. */
  datatype Data = Data(idx: Index, fields: map<string, Source>) {
    ghost predicate Valid() {
      && idx.Valid() && LexIncreasing(idx.names)
      && forall f :: f in fields ==> !IsReserved(f) && fields[f].Valid() && fields[f].rows == idx.RowCount()
    }

    /** The row as a key and its cells. */
    ghost function ViewOf(row: nat): RowView
      requires Valid() && row < idx.RowCount()
    {
      GridLength(idx);
      RowView(idx.Rows()[row].sym, idx.Rows()[row].time, map f | f in fields :: CellOf(fields[f], row))
    }
  }

  function CellOf(src: Source, row: nat): Option<Value>
    requires src.Valid() && row < src.rows
  {
    if src.IsRowValid(row) then Some(RowValue(src.dt, src.values, src.rows, row)) else None
  }

  /** What the scan looks for: the predicate, with no tested cell NULL. */
  ghost predicate Wants(d: Data, pred: Option<Predicate>, row: nat)
    requires d.Valid() && row < d.idx.RowCount()
  {
    pred.Some? ==> Eval(pred.value, d.ViewOf(row)) && NonNull(pred.value, d.ViewOf(row))
  }

  predicate Requested(ranges: seq<RowRange>, row: nat) { ranges == [] || Covers(ranges, row) }

  /** The conjuncts for the index hold of the row as far as the index can tell. */
  ghost predicate IndexKeeps(d: Data, pred: Predicate, row: nat)
    requires d.Valid()
  {
    Collected(pred) == [] || Wanted(d.idx, Condition(d.idx, Some(And(Collected(pred)))), [], row)
  }

  /** A grid row and its position. */
  lemma Position(d: Data, row: nat) returns (j: nat, t: nat)
    requires d.Valid() && row < d.idx.RowCount()
    ensures j < |d.idx.recs| && d.idx.recs[j].ContainsTime(t) && Owns(d.idx, j, t - d.idx.recs[j].timeStart, row)
    ensures OnGrid(d.idx, j, t, d.ViewOf(row))
  {
    hide Index.Rows;
    j, t := FindRow(d.idx, row);
  }

  /** The index keeps a row exactly when the compiled condition selects its position. */
  lemma WantedAt(d: Data, acc: Acc, row: nat, j: nat, t: nat)
    requires d.Valid() && j < |d.idx.recs| && d.idx.recs[j].ContainsTime(t)
    requires Owns(d.idx, j, t - d.idx.recs[j].timeStart, row)
    ensures Wanted(d.idx, acc, [], row) <==> acc.Selects(j, t)
  {
    hide Covers;
    var k := t - d.idx.recs[j].timeStart;
    if Wanted(d.idx, acc, [], row) {
      var j': nat, k': nat :| Owns(d.idx, j', k', row) && acc.Selects(j', d.idx.recs[j'].timeStart + k');
      BlockUnique(d.idx, j, j', row);
    }
    if acc.Selects(j, t) {
      assert Owns(d.idx, j, k, row) && acc.Selects(j, d.idx.recs[j].timeStart + k);
    }
  }

  /** Every row that satisfies the predicate is kept by the index. */
  lemma IndexNeverLoses(d: Data, pred: Predicate, row: nat)
    requires d.Valid() && row < d.idx.RowCount()
    requires AllNamed(pred) && StraysHold(pred) && Splittable(pred) && PlainTimes(pred)
    requires Eval(pred, d.ViewOf(row))
    ensures IndexKeeps(d, pred, row)
  {
    hide Compiled, Eval, Collect, Index.Rows;
    var j, t := Position(d, row);
    var p := And(Collected(pred));
    StraysExact(pred, d.ViewOf(row));
    forall c | c in Collected(pred)
      ensures PlainTimes(c)
    {
      CollectedPlain(pred, c);
    }
    EvalAnd(Collected(pred), d.ViewOf(row));
    CompiledKeeps(d.idx, p, Start(d.idx), j, t, d.ViewOf(row));
    WantedAt(d, Compiled(d.idx, p, Start(d.idx)), row, j, t);
  }

  lemma EvalAnd(cs: seq<Predicate>, row: RowView)
    ensures Eval(And(cs), row) <==> forall c | c in cs :: Eval(c, row)
  {
  }

  /** On the exact shapes, a kept row satisfies every conjunct. */
  lemma IndexExact(d: Data, pred: Predicate, row: nat)
    requires d.Valid() && row < d.idx.RowCount() && Exact(And(Collected(pred)), false)
    requires IndexKeeps(d, pred, row)
    ensures forall c | c in Collected(pred) :: Eval(c, d.ViewOf(row))
  {
    hide Compiled, Eval, Collect, Index.Rows;
    if Collected(pred) != [] {
      var j, t := Position(d, row);
      var p := And(Collected(pred));
      CompiledExact(d.idx, p, Start(d.idx), j, t, d.ViewOf(row));
      WantedAt(d, Compiled(d.idx, p, Start(d.idx)), row, j, t);
      EvalAnd(Collected(pred), d.ViewOf(row));
    }
  }

  /** A field's own matching rows are those whose cell passes the group's predicate. */
  lemma MatchesGroup(d: Data, g: (string, Predicate), row: nat)
    requires d.Valid() && row < d.idx.RowCount() && g.0 in d.fields
    ensures d.fields[g.0].(pred := Some(g.1)).Valid()
    ensures d.fields[g.0].(pred := Some(g.1)).Matches(row) <==> GroupHolds(g, d.ViewOf(row))
  {
    hide EvalValue, RowValue, Index.Rows;
    assert d.ViewOf(row).cells[g.0] == CellOf(d.fields[g.0], row);
  }

  ghost predicate FieldsKeep(d: Data, groups: Groups, row: nat)
    requires d.Valid() && row < d.idx.RowCount()
  {
    GroupsHold(groups, d.ViewOf(row))
  }

  // ----- the scan

  /** Narrows the candidates by the index, unless the predicate has nothing for it. */
  method IndexNarrow(d: Data, pred: Predicate, current: seq<RowRange>) returns (out: seq<RowRange>)
    requires d.Valid() && Canonical(current) && forall row: nat :: Covers(current, row) ==> row < d.idx.RowCount()
    ensures Canonical(out)
    ensures forall row: nat :: Covers(out, row) <==> Covers(current, row) && IndexKeeps(d, pred, row)
  {
    hide Compiled, Covers, Canonical, Collect, Shares;
    var symTime := Collected(pred);
    if symTime == [] { return current; }
    var acc := And(symTime);
    ghost var cond := Condition(d.idx, Some(acc));
    var narrowed := ScanIndex(d.idx, Some(acc), current, None);
    CanonicalSorted(current);
    CanonicalSorted(narrowed);
    out := IntersectRangeLists(current, narrowed);
    forall row: nat
      ensures Covers(out, row) <==> Covers(current, row) && IndexKeeps(d, pred, row)
    {
      WantedWithin(d, cond, current, row);
    }
  }

  /** The requested ranges only cut what the index wants. */
  lemma WantedWithin(d: Data, acc: Acc, ranges: seq<RowRange>, row: nat)
    requires d.Valid()
    ensures Wanted(d.idx, acc, ranges, row) <==> Wanted(d.idx, acc, [], row) && Requested(ranges, row)
  {
    hide Covers;
    if Wanted(d.idx, acc, [], row) {
      var j: nat, k: nat :| Owns(d.idx, j, k, row) && acc.Selects(j, d.idx.recs[j].timeStart + k);
    }
    if Wanted(d.idx, acc, ranges, row) {
      var j: nat, k: nat :| Owns(d.idx, j, k, row) && acc.Selects(j, d.idx.recs[j].timeStart + k);
    }
  }

  /** Every tested field exists and its literals fit its type. */
  ghost predicate Scannable(d: Data, groups: Groups) {
    forall k :: 0 <= k < |groups| ==> groups[k].0 in d.fields && Compatible(d.fields[groups[k].0].dt, groups[k].1)
  }

  /** A scan with this predicate meets no error: it splits by field and every field can be compared. */
  ghost predicate CanScan(d: Data, pred: Option<Predicate>) {
    pred.Some? ==> Walk(pred.value, []).Ok? && Scannable(d, Walk(pred.value, []).value)
  }

  /** Every tested field exists. */
  ghost predicate FieldsExist(d: Data, groups: Groups) { forall k :: 0 <= k < |groups| ==> groups[k].0 in d.fields }

  /** Each field scans the same candidates for its own sub-predicate; the results are
      intersected one by one, stopping at the first empty result, and merged. No field is
      scanned when no candidate is left: an empty list would mean every row. */
  method FieldsNarrow(d: Data, groups: Groups, current: seq<RowRange>) returns (r: Result<seq<RowRange>>)
    requires d.Valid() && Canonical(current) && forall row: nat :: Covers(current, row) ==> row < d.idx.RowCount()
    ensures Scannable(d, groups) ==> r.Ok?
    ensures r.Ok? ==> Canonical(r.value) && FieldsExist(d, groups)
    ensures r.Ok? ==> forall row: nat :: Covers(r.value, row) <==>
                        Covers(current, row) && row < d.idx.RowCount() && FieldsKeep(d, groups, row)
  {
    hide Covers, Canonical, SortedDisjoint, FieldsKeep;
    for i := 0 to |groups|
      invariant forall k :: 0 <= k < i ==> groups[k].0 in d.fields
    {
      if groups[i].0 !in d.fields { return Err(Invalid); }
    }
    var results: seq<seq<RowRange>> := [];
    CanonicalSorted(current);
    if current != [] {
      results :- ScanGroups(d, groups, current);
    }
    var final := IntersectAll(d, groups, current, results);
    SortedNonEmpty(final);
    var merged := MergeRanges(final);
    return Ok(merged);
  }

  /** The rows each group keeps among the candidates. */
  ghost predicate HitLists(d: Data, groups: Groups, current: seq<RowRange>, results: seq<seq<RowRange>>)
    requires d.Valid()
  {
    |results| <= |groups| && forall k :: 0 <= k < |results| ==> SortedDisjoint(results[k]) && HitsOf(d, groups[k], current, results[k])
  }

  /** Every field scans the candidates for its own group. */
  method ScanGroups(d: Data, groups: Groups, current: seq<RowRange>) returns (r: Result<seq<seq<RowRange>>>)
    requires d.Valid() && SortedDisjoint(current) && current != []
    requires forall row: nat :: Covers(current, row) ==> row < d.idx.RowCount()
    requires forall k :: 0 <= k < |groups| ==> groups[k].0 in d.fields
    ensures Scannable(d, groups) ==> r.Ok?
    ensures r.Ok? ==> |r.value| == |groups| && HitLists(d, groups, current, r.value)
  {
    hide Covers, SortedDisjoint, Source.Matches, Data.ViewOf, GroupHolds;
    var results: seq<seq<RowRange>> := [];
    for i := 0 to |groups|
      invariant |results| == i && HitLists(d, groups, current, results)
    {
      var src := d.fields[groups[i].0].(pred := Some(groups[i].1));
      GroupSource(d, groups[i]);
      var hits :- FieldHits(src, current);
      forall row: nat
        ensures Covers(hits, row) <==> Covers(current, row) && row < d.idx.RowCount() && GroupKeeps(d, groups[i], row)
      {
        if row < d.idx.RowCount() { MatchesGroup(d, groups[i], row); }
      }
      results := results + [hits];
    }
    return Ok(results);
  }

  /** The rows the candidates and the first groups leave. */
  ghost predicate KeptBy(d: Data, groups: Groups, current: seq<RowRange>, rs: seq<RowRange>)
    requires d.Valid()
  {
    forall row: nat :: Covers(rs, row) <==> Covers(current, row) && row < d.idx.RowCount() && FieldsKeep(d, groups, row)
  }

  /** The candidates intersected with every field's rows, up to the first empty result. */
  method IntersectAll(d: Data, groups: Groups, current: seq<RowRange>, results: seq<seq<RowRange>>) returns (final: seq<RowRange>)
    requires d.Valid() && SortedDisjoint(current) && HitLists(d, groups, current, results)
    requires forall row: nat :: Covers(current, row) ==> row < d.idx.RowCount()
    requires results == [] || |results| == |groups|
    requires current != [] ==> |results| == |groups|
    ensures SortedDisjoint(final) && KeptBy(d, groups, current, final)
  {
    hide Covers, SortedDisjoint, KeptBy, HitsOf;
    final := current;
    KeptNone(d, groups, current);
    for i := 0 to |results|
      invariant SortedDisjoint(final) && KeptBy(d, groups[..i], current, final) && (i == 0 ==> final == current)
    {
      if final == [] {
        KeptEmpty(d, groups, i, current);
        return;
      }
      var next := IntersectRangeLists(final, results[i]);
      KeptMore(d, groups, i, current, final, results[i], next);
      final := next;
    }
    assert groups[..|groups|] == groups;
    if current == [] { KeptEmpty(d, groups, 0, current); }
  }

  lemma KeptNone(d: Data, groups: Groups, current: seq<RowRange>)
    requires d.Valid() && forall row: nat :: Covers(current, row) ==> row < d.idx.RowCount()
    ensures KeptBy(d, groups[..0], current, current)
  {
    hide Data.ViewOf, Covers;
  }

  lemma KeptMore(d: Data, groups: Groups, i: nat, current: seq<RowRange>, a: seq<RowRange>, hits: seq<RowRange>, next: seq<RowRange>)
    requires d.Valid() && i < |groups| && KeptBy(d, groups[..i], current, a) && HitsOf(d, groups[i], current, hits)
    requires forall row: nat :: Covers(next, row) <==> Covers(a, row) && Covers(hits, row)
    ensures KeptBy(d, groups[..i + 1], current, next)
  {
    hide Covers, FieldsKeep, GroupKeeps;
    forall row: nat
      ensures Covers(next, row) <==> Covers(current, row) && row < d.idx.RowCount() && FieldsKeep(d, groups[..i + 1], row)
    {
      if row < d.idx.RowCount() { KeepsMore(d, groups, i, row); }
    }
  }

  /** Once the intersection is empty, more fields change nothing. */
  lemma KeptEmpty(d: Data, groups: Groups, i: nat, current: seq<RowRange>)
    requires d.Valid() && i <= |groups| && KeptBy(d, groups[..i], current, [])
    ensures KeptBy(d, groups, current, [])
  {
    hide GroupHolds, Data.ViewOf, Covers;
    forall row: nat
      ensures !Covers([], row) && !(Covers(current, row) && row < d.idx.RowCount() && FieldsKeep(d, groups, row))
    {
      EmptyCovers([]);
      if Covers(current, row) && row < d.idx.RowCount() { assert !FieldsKeep(d, groups[..i], row); }
    }
  }

  ghost predicate GroupKeeps(d: Data, g: (string, Predicate), row: nat)
    requires d.Valid() && row < d.idx.RowCount()
  {
    GroupHolds(g, d.ViewOf(row))
  }

  ghost predicate HitsOf(d: Data, g: (string, Predicate), current: seq<RowRange>, hits: seq<RowRange>)
    requires d.Valid()
  {
    forall row: nat :: Covers(hits, row) <==> Covers(current, row) && row < d.idx.RowCount() && GroupKeeps(d, g, row)
  }

  lemma GroupSource(d: Data, g: (string, Predicate))
    requires d.Valid() && g.0 in d.fields
    ensures d.fields[g.0].(pred := Some(g.1)).Valid() && d.fields[g.0].rows == d.idx.RowCount()
  {
  }

  lemma EmptyCovers(current: seq<RowRange>)
    ensures current == [] ==> forall row: nat :: !Covers(current, row)
  {
  }

  lemma SortedNonEmpty(rs: seq<RowRange>)
    ensures SortedDisjoint(rs) ==> NonEmpty(rs)
  {
  }

  lemma KeepsMore(d: Data, groups: Groups, i: nat, row: nat)
    requires d.Valid() && row < d.idx.RowCount() && i < |groups|
    ensures FieldsKeep(d, groups[..i + 1], row) <==> FieldsKeep(d, groups[..i], row) && GroupKeeps(d, groups[i], row)
  {
    hide GroupHolds, Data.ViewOf;
    assert groups[..i + 1] == groups[..i] + [groups[i]];
  }

  /** Exactly what a successful scan keeps. */
  ghost predicate Reached(d: Data, ranges: seq<RowRange>, pred: Option<Predicate>, groups: Groups, row: nat)
    requires d.Valid()
  {
    && row < d.idx.RowCount() && Requested(ranges, row)
    && (pred.Some? ==> IndexKeeps(d, pred.value, row))
    && FieldsKeep(d, groups, row)
  }

  /** Nothing the caller wants is lost. */
  lemma ReachedWanted(d: Data, ranges: seq<RowRange>, pred: Option<Predicate>, row: nat)
    requires d.Valid() && row < d.idx.RowCount() && Requested(ranges, row) && Wants(d, pred, row)
    requires pred.Some? ==> AllNamed(pred.value) && StraysHold(pred.value) && PlainTimes(pred.value) && Walk(pred.value, []).Ok?
    ensures Reached(d, ranges, pred, if pred.Some? then Walk(pred.value, []).value else [], row)
  {
    hide Eval, Index.Rows;
    if pred.Some? {
      WalkAccepts(pred.value, []);
      IndexNeverLoses(d, pred.value, row);
      PartsFollow(pred.value, d.ViewOf(row));
      WalkMeaning(pred.value, [], d.ViewOf(row));
    }
  }

  /** For the supported shapes nothing else is reached. */
  lemma ReachedOnlyWanted(d: Data, ranges: seq<RowRange>, p: Predicate, row: nat)
    requires d.Valid() && AllNamed(p) && Supported(p) && Exact(And(Collected(p)), false) && Walk(p, []).Ok?
    requires Reached(d, ranges, Some(p), Walk(p, []).value, row)
    ensures Wants(d, Some(p), row)
  {
    hide Eval, Index.Rows;
    IndexExact(d, p, row);
    WalkMeaning(p, [], d.ViewOf(row));
    SupportedMeaning(p, d.ViewOf(row));
  }

  /** The predicates a dataset scan decides exactly. */
  predicate Decided(pred: Option<Predicate>) {
    pred.Some? ==>
      && AllNamed(pred.value) && StraysHold(pred.value) && PlainTimes(pred.value)
      && Supported(pred.value) && Exact(And(Collected(pred.value)), false)
  }

  /** The predicates for which a dataset scan never loses a row. */
  predicate Kept(pred: Option<Predicate>) {
    pred.Some? ==> AllNamed(pred.value) && StraysHold(pred.value) && PlainTimes(pred.value)
  }

  /** The rows a scan finds among the first `n`, in order. */
  ghost function ReachedUpTo(d: Data, ranges: seq<RowRange>, pred: Option<Predicate>, groups: Groups, n: nat): (r: seq<nat>)
    requires d.Valid()
  {
    if n == 0 then [] else
      ReachedUpTo(d, ranges, pred, groups, n - 1) + (if Reached(d, ranges, pred, groups, n - 1) then [n - 1] else [])
  }

  lemma {:induction false} ReachedList(d: Data, ranges: seq<RowRange>, pred: Option<Predicate>, groups: Groups, n: nat)
    requires d.Valid()
    ensures Increasing(ReachedUpTo(d, ranges, pred, groups, n))
    ensures forall row: nat :: row in ReachedUpTo(d, ranges, pred, groups, n) <==> row < n && Reached(d, ranges, pred, groups, row)
  {
    hide Reached;
    if n > 0 {
      ReachedList(d, ranges, pred, groups, n - 1);
      var before := ReachedUpTo(d, ranges, pred, groups, n - 1);
      forall i | 0 <= i < |before| ensures before[i] < n - 1 { assert before[i] in before; }
    }
  }

  /** All rows a scan finds, in order; none when the predicate is refused. */
  ghost function ScanRows(d: Data, ranges: seq<RowRange>, pred: Option<Predicate>): seq<nat>
    requires d.Valid()
  {
    if pred.Some? && Walk(pred.value, []).Err? then []
    else ReachedUpTo(d, ranges, pred, if pred.Some? then Walk(pred.value, []).value else [], d.idx.RowCount())
  }

  lemma ScanRowsAre(d: Data, ranges: seq<RowRange>, pred: Option<Predicate>, groups: Groups, rows: seq<nat>)
    requires d.Valid() && (pred.Some? ==> Walk(pred.value, []) == Ok(groups)) && (pred.None? ==> groups == [])
    requires Increasing(rows) && forall row: nat :: row in rows <==> Reached(d, ranges, pred, groups, row)
    ensures rows == ScanRows(d, ranges, pred)
  {
    hide Walk;
    ReachedList(d, ranges, pred, groups, d.idx.RowCount());
    IncreasingUnique(rows, ScanRows(d, ranges, pred));
  }

  /** The whole scan: clamp, index, fields. `rows` are the rows found; the scanner hands
      out the first `limit` of them, in order. */
  method ScanDataset(d: Data, ranges: seq<RowRange>, pred: Option<Predicate>, limit: Option<nat>)
    returns (r: Result<DatasetScanner>, ghost rows: seq<nat>)
    requires d.Valid()
    ensures pred.Some? ==> (Walk(pred.value, []).Ok? <==> Splittable(pred.value))
    ensures r.Ok? && pred.Some? ==> Splittable(pred.value)
    ensures CanScan(d, pred) ==> r.Ok?
    ensures r.Ok? && pred.Some? ==> FieldsExist(d, Walk(pred.value, []).value)
    ensures r.Ok? ==> fresh(r.value) && r.value.Remaining() == Take(rows, limit) && Increasing(rows)
    ensures r.Ok? ==> rows == ScanRows(d, ranges, pred) == RowsOf(r.value.ranges)
    ensures r.Ok? ==> NonEmpty(r.value.ranges) && r.value.remaining == limit
    ensures r.Ok? ==> forall row: nat | row in rows :: row < d.idx.RowCount() && Requested(ranges, row)
    ensures r.Ok? && Kept(pred) ==>
              forall row: nat | row < d.idx.RowCount() && Requested(ranges, row) && Wants(d, pred, row) :: row in rows
    ensures r.Ok? && Decided(pred) ==> forall row: nat | row in rows :: row < d.idx.RowCount() && Wants(d, pred, row)
  {
    hide Covers, Canonical, Wants, RowsOf, Increasing, SortedDisjoint, IndexKeeps, FieldsKeep, FieldsExist,
         Walk, Exact, Supported, Kept, Decided, ScanRows, NonEmpty;
    rows := [];
    if pred.Some? { WalkAccepts(pred.value, []); }
    var current := ClampRanges(ranges, d.idx.RowCount());
    var groups: Groups := [];
    ghost var start := current;
    if pred.Some? {
      current := IndexNarrow(d, pred.value, current);
      var walked := Walk(pred.value, []);
      if walked.Err? { return Err(walked.error), rows; }
      groups := walked.value;
    }
    var narrowed := FieldsNarrow(d, groups, current);
    if narrowed.Err? { return Err(narrowed.error), rows; }
    var final := narrowed.value;
    rows := RowsOf(final);
    CanonicalSorted(final);
    RowsOfIncreasing(final);
    var sc := new DatasetScanner(final, limit);
    forall row: nat
      ensures row in rows <==> Reached(d, ranges, pred, groups, row)
    {
      RowsOfMember(final, row);
      assert Covers(start, row) <==> row < d.idx.RowCount() && Requested(ranges, row);
    }
    RowsFound(d, ranges, pred, groups, rows);
    ScanRowsAre(d, ranges, pred, groups, rows);
    SortedNonEmpty(final);
    return Ok(sc), rows;
  }

  lemma RowsFound(d: Data, ranges: seq<RowRange>, pred: Option<Predicate>, groups: Groups, rows: seq<nat>)
    requires d.Valid() && (pred.Some? ==> Walk(pred.value, []) == Ok(groups)) && (pred.None? ==> groups == [])
    requires forall row: nat :: row in rows <==> Reached(d, ranges, pred, groups, row)
    ensures Kept(pred) ==>
              forall row: nat | row < d.idx.RowCount() && Requested(ranges, row) && Wants(d, pred, row) :: row in rows
    ensures Decided(pred) ==> forall row: nat | row in rows :: row < d.idx.RowCount() && Wants(d, pred, row)
  {
    hide Reached, Eval, Walk, Exact, Supported, Collect, Requested, AllNamed, StraysHold, PlainTimes, NonNull,
         Data.ViewOf;
    if Kept(pred) {
      forall row: nat | row < d.idx.RowCount() && Requested(ranges, row) && Wants(d, pred, row)
        ensures row in rows
      {
        ReachedWanted(d, ranges, pred, row);
      }
    }
    if Decided(pred) {
      forall row: nat | row in rows
        ensures row < d.idx.RowCount() && Wants(d, pred, row)
      {
        ReachedInside(d, ranges, pred, groups, row);
        if pred.Some? { ReachedOnlyWanted(d, ranges, pred.value, row); }
      }
    }
  }

  lemma ReachedInside(d: Data, ranges: seq<RowRange>, pred: Option<Predicate>, groups: Groups, row: nat)
    requires d.Valid() && Reached(d, ranges, pred, groups, row)
    ensures row < d.idx.RowCount()
  {
  }

  /** Hands out the found ranges; the one that crosses the limit is cut and the rest dropped. */
  class DatasetScanner {
    var ranges: seq<RowRange>
    var remaining: Option<nat>

    constructor (ranges: seq<RowRange>, limit: Option<nat>)
      ensures this.ranges == ranges && remaining == limit && Remaining() == Take(RowsOf(ranges), limit)
    {
      this.ranges, this.remaining := ranges, limit;
    }

    /** The rows still to be handed out. */
    ghost function Remaining(): seq<nat>
      reads this
    {
      Take(RowsOf(ranges), remaining)
    }

    method Next() returns (r: Option<RowRange>)
      modifies this
      ensures r.None? <==> old(ranges) == []
      ensures r.None? ==> old(Remaining()) == [] && ranges == [] && remaining == old(remaining)
      ensures r.Some? ==> old(Remaining()) == Span(r.value.offset, r.value.length) + Remaining()
      ensures r.Some? ==> |ranges| < |old(ranges)|
      ensures r.Some? && old(remaining).Some? ==> remaining == Some(old(remaining).value - r.value.length)
      ensures r.Some? && old(remaining).None? ==> remaining.None?
      ensures r.Some? ==> r.value.offset == old(ranges)[0].offset
      ensures r.Some? ==> r.value.length == if old(remaining).Some? && old(remaining).value < old(ranges)[0].length
                                            then old(remaining).value else old(ranges)[0].length
      ensures r.Some? && remaining != Some(0) ==> ranges == old(ranges)[1..]
      ensures r.Some? && remaining == Some(0) ==> ranges == []
    {
      hide RowsOf;
      RowsOfEmpty();
      if ranges == [] { return None; }
      var range := ranges[0];
      RowsOfHead(ranges, 0);
      assert ranges[0..] == ranges;
      ranges := ranges[1..];
      if remaining.Some? {
        var take := if range.length < remaining.value then range.length else remaining.value;
        remaining := Some(remaining.value - take);
        if remaining.value == 0 { ranges := []; }
        if take < range.length { return Some(RowRange(range.offset, take)); }
      }
      return Some(range);
    }
  }
}
