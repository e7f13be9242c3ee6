/** Querying a table: the conditions of a request combined, the partitions chosen by their
    names alone, and the rows found exactly the rows asked for. */
module TableScan {
  import opened Calendar
  import opened Dataset
  import opened Formats
  import opened Meta
  import opened MetaScan
  import opened Order
  import opened Partitions
  import opened Predicates
  import opened PredicateSplit
  import opened Ranges
  import opened TableQuery
  import opened TimePatterns

  /** A symbol, a time window `[lo, hi)` and a predicate, each optional. */
  datatype Request = Request(sym: Option<Str>, time: Option<(int, int)>, pred: Option<Predicate>, limit: Option<nat>) {
    function KeyParts(): seq<Predicate> {
      (if sym.Some? then [Cmp(Some(SYM), Eq, StrLit(sym.value))] else [])
      + (if time.Some? then [Cmp(Some(TIME), Ge, IntLit(time.value.0)), Cmp(Some(TIME), Lt, IntLit(time.value.1))] else [])
    }

    function AllParts(): seq<Predicate> { KeyParts() + (if pred.Some? then [pred.value] else []) }

    /** The predicate every partition is scanned with. */
    function Combined(): Option<Predicate> {
      if AllParts() == [] then None else Some(And(AllParts()))
    }
  }

  type Table = map<Name, Data>

  ghost predicate Stored(scheme: Scheme, names: seq<Name>, t: Table) {
    Listing(scheme, names) && forall n :: n in names ==> n in t && t[n].Valid()
  }

  /** Every partition holds only rows of its own name. Nothing checks that when one is created. */
  ghost predicate Housed(scheme: Scheme, names: seq<Name>, t: Table, tt: TimeType) {
    && Stored(scheme, names, t)
    && forall n :: n in names ==> OwnRows(scheme, n, t[n], tt)
  }

  ghost predicate OwnRows(scheme: Scheme, n: Name, d: Data, tt: TimeType)
    requires d.Valid()
  {
    forall row: nat | row < d.idx.RowCount() :: PartitionName(scheme, d.ViewOf(row).time, tt) == n
  }

  /** What a request asks of a row: its symbol, a time in the window, and the predicate with
      no tested cell NULL. */
  ghost predicate Asks(d: Data, req: Request, row: nat)
    requires d.Valid() && row < d.idx.RowCount()
  {
    var v := d.ViewOf(row);
    && (req.sym.Some? ==> v.sym == req.sym.value)
    && (req.time.Some? ==> req.time.value.0 <= v.time < req.time.value.1)
    && (req.pred.Some? ==> Eval(req.pred.value, v) && NonNull(req.pred.value, v))
  }

  ghost predicate AskedIn(t: Table, n: Name, req: Request, row: nat)
    requires n in t && t[n].Valid()
  {
    row < t[n].idx.RowCount() && Asks(t[n], req, row)
  }

  /** The combined predicate says of a row just what the request asks. */
  lemma RequestMeaning(d: Data, req: Request, row: nat)
    requires d.Valid() && row < d.idx.RowCount()
    ensures Wants(d, req.Combined(), row) <==> Asks(d, req, row)
  {
    hide Data.Valid, Data.ViewOf;
    var v := d.ViewOf(row);
    KeyMeaning(req, v);
    if req.pred.Some? { assert req.pred.value in req.AllParts(); }
    var parts := req.AllParts();
    assert (forall c | c in parts :: Eval(c, v)) <==>
      (forall c | c in req.KeyParts() :: Eval(c, v)) && (req.pred.Some? ==> Eval(req.pred.value, v));
    PartFields(req);
  }

  lemma KeyMeaning(req: Request, v: RowView)
    ensures (forall c | c in req.KeyParts() :: Eval(c, v)) <==>
              && (req.sym.Some? ==> v.sym == req.sym.value)
              && (req.time.Some? ==> req.time.value.0 <= v.time < req.time.value.1)
  {
    hide LexLess;
    if req.sym.Some? {
      var c := Cmp(Some(SYM), Eq, StrLit(req.sym.value));
      assert c in req.KeyParts() && (Eval(c, v) <==> v.sym == req.sym.value);
    }
    if req.time.Some? {
      var ge, lt := Cmp(Some(TIME), Ge, IntLit(req.time.value.0)), Cmp(Some(TIME), Lt, IntLit(req.time.value.1));
      assert ge in req.KeyParts() && lt in req.KeyParts();
      assert Eval(ge, v) <==> v.time >= req.time.value.0;
      assert Eval(lt, v) <==> v.time < req.time.value.1;
    }
  }

  /** Only the predicate mentions ordinary fields. */
  lemma PartFields(req: Request)
    ensures forall f :: f in Fields(And(req.AllParts())) && !IsReserved(f) <==>
              req.pred.Some? && f in Fields(req.pred.value) && !IsReserved(f)
  {
    hide IsReserved, Fields, Request.AllParts;
    forall f
      ensures f in Fields(And(req.AllParts())) && !IsReserved(f) <==>
                req.pred.Some? && f in Fields(req.pred.value) && !IsReserved(f)
    {
      PartField(req, f);
    }
  }

  lemma PartField(req: Request, f: string)
    ensures f in Fields(And(req.AllParts())) && !IsReserved(f) <==>
              req.pred.Some? && f in Fields(req.pred.value) && !IsReserved(f)
  {
    if f in Fields(And(req.AllParts())) {
      var c :| c in req.AllParts() && f in Fields(c);
      if req.pred.None? || c != req.pred.value { assert c in req.KeyParts() && Fields(c) <= {SYM, TIME}; }
    }
    if req.pred.Some? { assert req.pred.value in req.AllParts(); }
  }

  // ----- choosing partitions

  /** The name's range overlaps the window. */
  predicate Overlaps(scheme: Scheme, n: Name, tt: TimeType, lo: int, hi: int) {
    PartitionRange(scheme, n, tt).Some? &&
    var r := PartitionRange(scheme, n, tt).value; r.0 < hi && lo < r.1
  }

  /** A row whose time is inside the window keeps its partition. */
  ghost predicate KeepsRow(scheme: Scheme, t: Table, tt: TimeType, n: Name, row: nat, lo: int, hi: int)
    requires n in t && t[n].Valid() && row < t[n].idx.RowCount()
  {
    lo <= t[n].ViewOf(row).time < hi ==> Overlaps(scheme, n, tt, lo, hi)
  }

  /** Choosing partitions by name is right for every window exactly when every row lives in the
      partition its time names. */
  lemma PruningLossless(scheme: Scheme, names: seq<Name>, t: Table, tt: TimeType)
    requires Stored(scheme, names, t) && forall n :: n in names ==> PartitionRange(scheme, n, tt).Some?
    ensures Housed(scheme, names, t, tt) <==>
              forall n: Name, row: nat, lo: int, hi: int | n in names && row < t[n].idx.RowCount() ::
                KeepsRow(scheme, t, tt, n, row, lo, hi)
  {
    hide PartitionRange, PartitionName, Data.ViewOf, Data.Valid;
    forall n: Name, row: nat | n in names && row < t[n].idx.RowCount()
      ensures PartitionName(scheme, t[n].ViewOf(row).time, tt) == n <==>
                var r := PartitionRange(scheme, n, tt).value; r.0 <= t[n].ViewOf(row).time < r.1
    {
      RangedProper(scheme, names, tt, n);
      RangeExact(scheme, n, t[n].ViewOf(row).time, tt);
    }
    if forall n: Name, row: nat, lo: int, hi: int | n in names && row < t[n].idx.RowCount() :: KeepsRow(scheme, t, tt, n, row, lo, hi) {
      forall n: Name, row: nat | n in names && row < t[n].idx.RowCount()
        ensures PartitionName(scheme, t[n].ViewOf(row).time, tt) == n
      {
        var v := t[n].ViewOf(row).time;
        assert KeepsRow(scheme, t, tt, n, row, v, v + 1);
      }
    }
  }

  /** A partition whose range misses the window holds no row the request wants. */
  lemma MissesNothing(scheme: Scheme, names: seq<Name>, t: Table, tt: TimeType, req: Request, n: Name, row: nat)
    requires Housed(scheme, names, t, tt) && n in names && req.time.Some? && AskedIn(t, n, req, row)
    requires PartitionRange(scheme, n, tt).Some?
    ensures Overlaps(scheme, n, tt, req.time.value.0, req.time.value.1)
  {
    hide PartitionRange, PartitionName, Data.ViewOf, NonNull, Eval;
    var v := t[n].ViewOf(row);
    RangedProper(scheme, names, tt, n);
    RangeExact(scheme, n, v.time, tt);
  }

  /** A row of 6 January 1970 stored under 1 January 1971: the window of its own day misses it. */
  lemma StrangerMissed(d: Data)
    requires d.Valid() && d.idx.RowCount() > 0 && d.ViewOf(0).time == 5
    ensures var n := DateName(1971, 1, 1);
            var t: Table := map[n := d];
            Stored(ByDate, [n], t) && !KeepsRow(ByDate, t, TimeType.Date32, n, 0, 5, 6)
  {
    hide Data.Valid, Data.ViewOf;
    assert DaysFromCivil(1971, 1, 1) == 365;
  }

  lemma RangedProper(scheme: Scheme, names: seq<Name>, tt: TimeType, n: Name)
    requires Listing(scheme, names) && n in names && PartitionRange(scheme, n, tt).Some?
    ensures Proper(scheme, n)
  {
  }

  lemma StoredWith(scheme: Scheme, names: seq<Name>, t: Table, tt: TimeType)
    ensures Housed(scheme, names, t, tt) ==> Stored(scheme, names, t)
    ensures Stored(scheme, names, t) ==> Listing(scheme, names) && forall n :: n in names ==> n in t && t[n].Valid()
  {
  }

  /** The names kept, in order: the overlapping ones, each once, their ranges ascending. */
  lemma NamesKept(scheme: Scheme, names: seq<Name>, tt: TimeType, lo: int, hi: int, kept: seq<Info>, out: seq<Name>)
    requires InOrder(kept) && |out| == |kept| && forall i :: 0 <= i < |kept| ==> out[i] == kept[i].name
    requires forall x :: x in kept ==> x.name in names && PartitionRange(scheme, x.name, tt) == Some((x.lo, x.hi)) && x.lo < hi && lo < x.hi
    requires forall n :: n in names ==> KeptIf(kept, scheme, n, tt, lo, hi)
    ensures forall n :: n in out <==> n in names && Overlaps(scheme, n, tt, lo, hi)
    ensures forall i, j :: 0 <= i < j < |out| ==> out[i] != out[j]
    ensures forall i :: 0 <= i < |out| ==> PartitionRange(scheme, out[i], tt).Some?
    ensures forall i, j :: 0 <= i < j < |out| ==>
              PartitionRange(scheme, out[i], tt).value.1 <= PartitionRange(scheme, out[j], tt).value.0
  {
    hide PartitionRange;
    forall n
      ensures n in out <==> n in names && Overlaps(scheme, n, tt, lo, hi)
    {
      if n in out {
        var i :| 0 <= i < |out| && out[i] == n;
        assert kept[i] in kept;
      }
      if n in names && Overlaps(scheme, n, tt, lo, hi) {
        assert KeptIf(kept, scheme, n, tt, lo, hi);
        var r := PartitionRange(scheme, n, tt).value;
        var i :| 0 <= i < |kept| && kept[i] == Info(n, r.0, r.1);
        assert out[i] == n;
      }
    }
    forall i | 0 <= i < |out|
      ensures PartitionRange(scheme, out[i], tt) == Some((kept[i].lo, kept[i].hi))
    {
      assert kept[i] in kept;
    }
  }

  /** The partitions to scan, in the order they are scanned. */
  method Choose(scheme: Scheme, names: seq<Name>, t: Table, tt: TimeType, req: Request) returns (r: Result<seq<Name>>)
    requires Stored(scheme, names, t)
    ensures r.Ok? <==> req.time.None? || forall n :: n in names ==> PartitionRange(scheme, n, tt).Some?
    ensures r.Ok? ==> forall i, j :: 0 <= i < j < |r.value| ==> r.value[i] != r.value[j]
    ensures r.Ok? ==> forall n :: n in r.value <==>
              n in names && (req.time.None? || Overlaps(scheme, n, tt, req.time.value.0, req.time.value.1))
    ensures r.Ok? && req.time.Some? ==> forall i :: 0 <= i < |r.value| ==> PartitionRange(scheme, r.value[i], tt).Some?
    ensures r.Ok? && req.time.Some? ==> forall i, j :: 0 <= i < j < |r.value| ==>
              PartitionRange(scheme, r.value[i], tt).value.1 <= PartitionRange(scheme, r.value[j], tt).value.0
    ensures r.Ok? && Housed(scheme, names, t, tt) ==>
              forall n: Name, row: nat | n in names && AskedIn(t, n, req, row) :: n in r.value
  {
    hide PartitionRange, Data.Valid, Asks, Housed, AskedIn, Request.Combined, Overlaps, InOrder, KeptIf;
    StoredWith(scheme, names, t, tt);
    if req.time.None? { return Ok(names); }
    var kept :- Prune(scheme, names, tt, req.time.value.0, req.time.value.1);
    var out := seq(|kept|, i requires 0 <= i < |kept| => kept[i].name);
    NamesKept(scheme, names, tt, req.time.value.0, req.time.value.1, kept, out);
    if Housed(scheme, names, t, tt) {
      forall n: Name, row: nat | n in names && AskedIn(t, n, req, row)
        ensures n in out
      {
        MissesNothing(scheme, names, t, tt, req, n, row);
      }
    }
    return Ok(out);
  }

  // ----- the rows of the chosen partitions

  function PartsOf(t: Table, order: seq<Name>): (r: seq<Data>)
    requires forall n :: n in order ==> n in t
    ensures |r| == |order| && forall i :: 0 <= i < |order| ==> r[i] == t[order[i]]
  {
    seq(|order|, i requires 0 <= i < |order| => t[order[i]])
  }

  lemma TaggedMember(part: nat, rows: seq<nat>, x: TableRow)
    ensures x in Tagged(part, rows) <==> x.part == part && x.row in rows
  {
    if x.part == part && x.row in rows {
      var i :| 0 <= i < |rows| && rows[i] == x.row;
      assert Tagged(part, rows)[i] == x;
    }
  }

  lemma {:induction false} RowsFromMember(parts: seq<Data>, pred: Option<Predicate>, from: nat, x: TableRow)
    requires AllValid(parts) && from <= |parts|
    ensures x in RowsFrom(parts, pred, from) <==> from <= x.part < |parts| && x.row in ScanRows(parts[x.part], [], pred)
    decreases |parts| - from
  {
    hide ScanRows, Tagged;
    if from < |parts| {
      TaggedMember(from, ScanRows(parts[from], [], pred), x);
      RowsFromMember(parts, pred, from + 1, x);
    }
  }

  /** What a partition's scan finds: nothing wanted is lost, and for decided predicates
      nothing else is found. */
  lemma ScanRowsExact(d: Data, pred: Option<Predicate>)
    requires d.Valid() && (pred.Some? ==> Splittable(pred.value))
    ensures Kept(pred) ==> forall row: nat | row < d.idx.RowCount() && Wants(d, pred, row) :: row in ScanRows(d, [], pred)
    ensures Decided(pred) ==> forall row: nat | row in ScanRows(d, [], pred) :: row < d.idx.RowCount() && Wants(d, pred, row)
  {
    hide Reached, ReachedUpTo, Walk, Kept, Decided, Wants, Data.Valid;
    if pred.Some? { WalkAccepts(pred.value, []); }
    var groups := if pred.Some? then Walk(pred.value, []).value else [];
    ReachedList(d, [], pred, groups, d.idx.RowCount());
    forall row: nat
      ensures row in ScanRows(d, [], pred) <==> Reached(d, [], pred, groups, row)
    {
      if Reached(d, [], pred, groups, row) { ReachedInside(d, [], pred, groups, row); }
    }
    RowsFound(d, [], pred, groups, ScanRows(d, [], pred));
  }

  ghost predicate Earlier(a: TableRow, b: TableRow) { a.part < b.part || (a.part == b.part && a.row < b.row) }

  /** Partition by partition, row by row, none twice. */
  ghost predicate InTableOrder(rows: seq<TableRow>) {
    forall i, j :: 0 <= i < j < |rows| ==> Earlier(rows[i], rows[j])
  }

  lemma {:induction false} RowsFromOrdered(parts: seq<Data>, pred: Option<Predicate>, from: nat)
    requires AllValid(parts) && from <= |parts|
    ensures InTableOrder(RowsFrom(parts, pred, from))
    decreases |parts| - from
  {
    hide ScanRows, Data.Valid;
    if from < |parts| {
      RowsFromOrdered(parts, pred, from + 1);
      ScanRowsIncrease(parts[from], pred);
      var here, rest := Tagged(from, ScanRows(parts[from], [], pred)), RowsFrom(parts, pred, from + 1);
      forall j | 0 <= j < |rest|
        ensures rest[j].part > from
      {
        assert rest[j] in rest;
        RowsFromMember(parts, pred, from + 1, rest[j]);
      }
    }
  }

  lemma ScanRowsIncrease(d: Data, pred: Option<Predicate>)
    requires d.Valid()
    ensures Increasing(ScanRows(d, [], pred))
  {
    hide ReachedUpTo, Walk, Data.Valid;
    if pred.None? || Walk(pred.value, []).Ok? {
      ReachedList(d, [], pred, if pred.Some? then Walk(pred.value, []).value else [], d.idx.RowCount());
    }
  }

  /** Row `x` of the answer is row `x.row` of partition `order[x.part]`. */
  ghost predicate Answers(t: Table, order: seq<Name>, req: Request, x: TableRow)
    requires forall n :: n in order ==> n in t && t[n].Valid()
  {
    x.part < |order| && AskedIn(t, order[x.part], req, x.row)
  }

  /** Opens a scan. Nothing is read yet; a partition name without bounds is the only error. */
  method ScanTable(scheme: Scheme, names: seq<Name>, t: Table, tt: TimeType, req: Request)
    returns (r: Result<TableScanner>, ghost order: seq<Name>)
    requires Stored(scheme, names, t)
    ensures r.Ok? <==> req.time.None? || forall n :: n in names ==> PartitionRange(scheme, n, tt).Some?
    ensures r.Ok? ==> forall i, j :: 0 <= i < j < |order| ==> order[i] != order[j]
    ensures r.Ok? ==> forall n :: n in order <==>
              n in names && (req.time.None? || Overlaps(scheme, n, tt, req.time.value.0, req.time.value.1))
    ensures r.Ok? ==> fresh(r.value) && r.value.Valid() && r.value.nextIdx == 0 && r.value.pred == req.Combined()
    ensures r.Ok? ==> r.value.parts == PartsOf(t, order) && AllValid(r.value.parts)
    ensures r.Ok? ==> r.value.Remaining() == Take(RowsFrom(r.value.parts, req.Combined(), 0), req.limit)
    ensures r.Ok? ==> InTableOrder(RowsFrom(r.value.parts, req.Combined(), 0))
    ensures r.Ok? && Kept(req.Combined()) && (req.Combined().Some? ==> Splittable(req.Combined().value)) ==>
              forall n: Name, row: nat | n in order && AskedIn(t, n, req, row) ::
                exists i: nat :: i < |order| && order[i] == n && TableRow(i, row) in RowsFrom(r.value.parts, req.Combined(), 0)
    ensures r.Ok? && Housed(scheme, names, t, tt) ==>
              forall n: Name, row: nat | n in names && AskedIn(t, n, req, row) :: n in order
    ensures r.Ok? && Decided(req.Combined()) ==>
              forall x | x in RowsFrom(r.value.parts, req.Combined(), 0) :: Answers(t, order, req, x)
  {
    hide PartitionRange, OwnRows, Request.Combined, InTableOrder, Kept, Decided, Asks, Data.Valid, RowsFrom,
         Take, ScanRows, TableScanner.Remaining, TableScanner.Valid;
    order := [];
    var chosen := Choose(scheme, names, t, tt, req);
    if chosen.Err? { return Err(chosen.error), order; }
    order := chosen.value;
    var pred := req.Combined();
    var sc := new TableScanner(PartsOf(t, chosen.value), pred, req.limit);
    AnswersExact(scheme, names, t, chosen.value, req);
    RowsFromOrdered(PartsOf(t, chosen.value), pred, 0);
    return Ok(sc), order;
  }

  /** The rows of the chosen partitions, taken together. */
  lemma AnswersExact(scheme: Scheme, names: seq<Name>, t: Table, order: seq<Name>, req: Request)
    requires Stored(scheme, names, t) && forall n :: n in order ==> n in names
    ensures AllValid(PartsOf(t, order))
    ensures Kept(req.Combined()) && (req.Combined().Some? ==> Splittable(req.Combined().value)) ==>
              forall n: Name, row: nat | n in order && AskedIn(t, n, req, row) ::
                exists i: nat :: i < |order| && order[i] == n && TableRow(i, row) in RowsFrom(PartsOf(t, order), req.Combined(), 0)
    ensures Decided(req.Combined()) ==>
              forall x | x in RowsFrom(PartsOf(t, order), req.Combined(), 0) :: Answers(t, order, req, x)
  {
    hide OwnRows, Kept, Decided, Wants, Asks, Data.Valid, RowsFrom, ScanRows, Splittable, Request.Combined;
    var parts, pred := PartsOf(t, order), req.Combined();
    if Kept(pred) && (pred.Some? ==> Splittable(pred.value)) {
      forall n: Name, row: nat | n in order && AskedIn(t, n, req, row)
        ensures exists i: nat :: i < |order| && order[i] == n && TableRow(i, row) in RowsFrom(parts, pred, 0)
      {
        var i: nat :| i < |order| && order[i] == n;
        RequestMeaning(t[n], req, row);
        ScanRowsExact(t[n], pred);
        RowsFromMember(parts, pred, 0, TableRow(i, row));
      }
    }
    if Decided(pred) {
      forall x | x in RowsFrom(parts, pred, 0)
        ensures Answers(t, order, req, x)
      {
        RowsFromMember(parts, pred, 0, x);
        DecidedSplits(pred);
        ScanRowsExact(parts[x.part], pred);
        RequestMeaning(parts[x.part], req, x.row);
      }
    }
  }

  lemma DecidedSplits(pred: Option<Predicate>)
    requires Decided(pred)
    ensures pred.Some? ==> Splittable(pred.value)
  {
    if pred.Some? { SupportedSplits(pred.value); }
  }

  // ----- when a request is decided

  lemma {:induction false} CollectFront(p: Predicate, out: seq<Predicate>)
    ensures Collect(p, out) == out + Collect(p, [])
    decreases p, 1
  {
    match p
    case And(cs) => CollectAllFront(cs, out);
    case Or(cs) => if !AllReserved(p) { CollectAllFront(cs, out); }
    case _ =>
  }

  lemma {:induction false} CollectAllFront(cs: seq<Predicate>, out: seq<Predicate>)
    ensures CollectAll(cs, out) == out + CollectAll(cs, [])
    decreases cs, 0
  {
    if cs != [] {
      CollectFront(cs[0], out);
      CollectAllFront(cs[1..], Collect(cs[0], out));
      CollectAllFront(cs[1..], Collect(cs[0], []));
    }
  }

  lemma {:induction false} ExactAppend(a: seq<Predicate>, b: seq<Predicate>, set_: bool)
    requires ExactAll(a, set_) && ExactAll(b, set_ || exists c | c in a :: SetsSyms(c))
    ensures ExactAll(a + b, set_)
  {
    if a == [] {
      assert a + b == b;
    } else {
      assert (a + b)[1..] == a[1..] + b && a == [a[0]] + a[1..];
      ExactAppend(a[1..], b, set_ || SetsSyms(a[0]));
    }
  }

  /** A window of plain times and a decided predicate, whose own `Or` of symbols stands
      alone, make a decided request. */
  lemma RequestDecided(req: Request)
    requires req.time.Some? ==> PlainTime(IntLit(req.time.value.0)) && PlainTime(IntLit(req.time.value.1))
    requires req.pred.Some? ==>
               && AllNamed(req.pred.value) && StraysHold(req.pred.value) && PlainTimes(req.pred.value) && Supported(req.pred.value)
               && ExactAll(Collected(req.pred.value), req.sym.Some?)
    ensures Decided(req.Combined())
  {
    hide Collect, ExactAll, AllNamed, StraysHold, PlainTimes, Supported;
    if req.AllParts() != [] {
      KeyPartsCollected(req);
      PartsCollected(req);
      KeyPartsExact(req);
      if req.pred.None? { NothingExact(req.sym.Some?); }
      ExactAppend(req.KeyParts(), if req.pred.Some? then Collected(req.pred.value) else [], false);
      ExactAnd(Collected(And(req.AllParts())));
      PartsShaped(req);
    }
  }

  /** A window of plain times and a splittable predicate that loses nothing by itself make a
      request that loses nothing. */
  lemma RequestKept(req: Request)
    requires req.time.Some? ==> PlainTime(IntLit(req.time.value.0)) && PlainTime(IntLit(req.time.value.1))
    requires req.pred.Some? ==>
               AllNamed(req.pred.value) && StraysHold(req.pred.value) && PlainTimes(req.pred.value) && Splittable(req.pred.value)
    ensures Kept(req.Combined()) && (req.Combined().Some? ==> Splittable(req.Combined().value))
  {
    hide Collect, AllNamed, StraysHold, PlainTimes, Splittable;
    PartsShaped(req);
  }

  /** A window that begins before the epoch finds nothing, whatever it ends with; so it is right
      exactly when no row is asked for. */
  lemma EarlyWindow(d: Data, req: Request)
    requires d.Valid() && forall t :: 0 <= t < |d.idx.axis| ==> d.idx.axis[t] < 0x8000_0000_0000_0000
    requires req.time.Some? && -0x8000_0000_0000_0000 <= req.time.value.0 < 0
    ensures ScanRows(d, [], req.Combined()) == []
    ensures (forall row: nat | row < d.idx.RowCount() && Asks(d, req, row) :: row in ScanRows(d, [], req.Combined()))
        <==> forall row: nat | row < d.idx.RowCount() :: !Asks(d, req, row)
  {
    hide Collect, Walk, Data.Valid, Asks, IndexKeeps, FieldsKeep, ReachedUpTo;
    var ge := Cmp(Some(TIME), Ge, IntLit(req.time.value.0));
    assert ge in req.KeyParts();
    KeyPartsCollected(req);
    PartsCollected(req);
    var p := And(req.AllParts());
    assert ge in Collected(p);
    forall row: nat
      ensures !IndexKeeps(d, p, row)
    {
      EarlyBound(d, p, req.time.value.0, row);
    }
    if Walk(p, []).Ok? { NothingReached(d, p, Walk(p, []).value, d.idx.RowCount()); }
  }

  lemma {:induction false} NothingReached(d: Data, p: Predicate, groups: Groups, n: nat)
    requires d.Valid() && forall row: nat :: !IndexKeeps(d, p, row)
    ensures ReachedUpTo(d, [], Some(p), groups, n) == []
  {
    hide IndexKeeps, FieldsKeep, Data.Valid;
    if n > 0 { NothingReached(d, p, groups, n - 1); }
  }

  lemma ExactAnd(cs: seq<Predicate>)
    ensures Exact(And(cs), false) <==> ExactAll(cs, false)
  {
  }

  /** A conjunction has a shape when its parts do. */
  lemma PartsShaped(req: Request)
    requires req.time.Some? ==> PlainTime(IntLit(req.time.value.0)) && PlainTime(IntLit(req.time.value.1))
    requires req.pred.Some? ==> AllNamed(req.pred.value) && StraysHold(req.pred.value) && PlainTimes(req.pred.value)
    ensures var p := And(req.AllParts()); AllNamed(p) && StraysHold(p) && PlainTimes(p)
    ensures (req.pred.Some? ==> Supported(req.pred.value)) ==> Supported(And(req.AllParts()))
    ensures (req.pred.Some? ==> Splittable(req.pred.value)) ==> Splittable(And(req.AllParts()))
  {
    hide Collect, Eval;
    forall c | c in req.AllParts()
      ensures AllNamed(c) && PlainTimes(c)
      ensures (req.pred.Some? ==> Supported(req.pred.value)) ==> Supported(c)
      ensures (req.pred.Some? ==> Splittable(req.pred.value)) ==> Splittable(c)
      ensures forall d :: Stray(c, d) ==> req.pred == Some(c)
    {
      if req.pred.None? || c != req.pred.value { assert c in req.KeyParts(); }
    }
    var p := And(req.AllParts());
    forall d | d in Collected(p) && Stray(p, d)
      ensures Eval(d, BLANK)
    {
      var q :| q in req.AllParts() && Stray(q, d);
      StrayCollected(q, d);
    }
  }

  lemma {:induction false} StrayCollected(p: Predicate, c: Predicate)
    requires Stray(p, c)
    ensures c in Collected(p)
  {
    match p
    case And(cs) =>
      var q :| q in cs && Stray(q, c);
      StrayCollected(q, c);
      CollectAllGrows(cs, [], c);
    case Or(_) =>
  }

  lemma NothingExact(set_: bool)
    ensures ExactAll([], set_)
  {
  }

  predicate KeyCmp(c: Predicate) { c.Cmp? && c.field.Some? && IsReserved(c.field.value) }

  lemma {:induction false} KeysCollected(cs: seq<Predicate>, out: seq<Predicate>)
    requires forall c :: c in cs ==> KeyCmp(c)
    ensures CollectAll(cs, out) == out + cs
  {
    if cs != [] {
      assert KeyCmp(cs[0]) && cs == [cs[0]] + cs[1..];
      KeysCollected(cs[1..], Collect(cs[0], out));
    }
  }

  lemma KeyPartsCollected(req: Request)
    ensures CollectAll(req.KeyParts(), []) == req.KeyParts()
  {
    KeysCollected(req.KeyParts(), []);
  }

  lemma {:induction false} CollectAllAppend(a: seq<Predicate>, b: seq<Predicate>, out: seq<Predicate>)
    ensures CollectAll(a + b, out) == CollectAll(b, CollectAll(a, out))
  {
    if a == [] { assert a + b == b; }
    else {
      assert (a + b)[1..] == a[1..] + b;
      CollectAllAppend(a[1..], b, Collect(a[0], out));
    }
  }

  lemma PartsCollected(req: Request)
    requires CollectAll(req.KeyParts(), []) == req.KeyParts()
    ensures Collected(And(req.AllParts())) == req.KeyParts() + (if req.pred.Some? then Collected(req.pred.value) else [])
  {
    CollectAllAppend(req.KeyParts(), if req.pred.Some? then [req.pred.value] else [], []);
    if req.pred.Some? { CollectFront(req.pred.value, req.KeyParts()); }
  }

  lemma KeyPartsExact(req: Request)
    requires req.time.Some? ==> PlainTime(IntLit(req.time.value.0)) && PlainTime(IntLit(req.time.value.1))
    ensures ExactAll(req.KeyParts(), false)
    ensures (exists c | c in req.KeyParts() :: SetsSyms(c)) <==> req.sym.Some?
  {
    hide ExactAll;
    var key := if req.sym.Some? then [Cmp(Some(SYM), Eq, StrLit(req.sym.value))] else [];
    var window := if req.time.Some? then [Cmp(Some(TIME), Ge, IntLit(req.time.value.0)), Cmp(Some(TIME), Lt, IntLit(req.time.value.1))] else [];
    OneKeyExact(key);
    WindowExact(window, req.sym.Some?);
    if req.sym.Some? { assert key[0] in key && key[0] in req.KeyParts(); }
    ExactAppend(key, window, false);
    assert req.KeyParts() == key + window;
  }

  lemma OneKeyExact(key: seq<Predicate>)
    requires |key| <= 1 && forall c :: c in key ==> c.Cmp? && c.field == Some(SYM) && c.op == Eq && c.value.StrLit?
    ensures ExactAll(key, false)
  {
    if key != [] { assert key[0] in key && key[1..] == []; }
  }

  lemma {:induction false} WindowExact(window: seq<Predicate>, set_: bool)
    requires forall c :: c in window ==> c.Cmp? && c.field == Some(TIME) && c.op != Ne && Pattern(c.value).Some? && PlainTime(c.value)
    ensures ExactAll(window, set_)
  {
    if window != [] {
      assert window[0] in window && window == [window[0]] + window[1..];
      WindowExact(window[1..], set_ || SetsSyms(window[0]));
    }
  }
}
