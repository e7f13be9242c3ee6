/** Querying a table: partitions are opened one at a time, only while rows are still
    wanted, and the rows found are assembled into batches. */
module TableQuery {
  import opened Dataset
  import opened Formats
  import opened Predicates
  import opened Ranges

  /** A row of the table: its partition's place in the scan order, and its row there. */
  datatype TableRow = TableRow(part: nat, row: nat)

  /** A contiguous piece of one partition. */
  datatype Piece = Piece(part: nat, range: RowRange)

  function Tagged(part: nat, rows: seq<nat>): (r: seq<TableRow>)
    ensures |r| == |rows|
  {
    seq(|rows|, i requires 0 <= i < |rows| => TableRow(part, rows[i]))
  }

  function PieceRows(p: Piece): seq<TableRow> { Tagged(p.part, Span(p.range.offset, p.range.length)) }

  lemma TagAppend(part: nat, a: seq<nat>, b: seq<nat>)
    ensures Tagged(part, a + b) == Tagged(part, a) + Tagged(part, b)
  {
  }

  ghost predicate AllValid(parts: seq<Data>) {
    forall i :: 0 <= i < |parts| ==> parts[i].Valid()
  }

  /** Every partition can be scanned with the predicate. */
  ghost predicate AllScan(parts: seq<Data>, pred: Option<Predicate>) {
    forall i :: 0 <= i < |parts| ==> CanScan(parts[i], pred)
  }

  /** The rows of partitions `from` on, partition by partition. */
  ghost function RowsFrom(parts: seq<Data>, pred: Option<Predicate>, from: nat): seq<TableRow>
    requires AllValid(parts) && from <= |parts|
    decreases |parts| - from
  {
    if from == |parts| then [] else Tagged(from, ScanRows(parts[from], [], pred)) + RowsFrom(parts, pred, from + 1)
  }

  lemma TakeAppend<T>(a: seq<T>, b: seq<T>, limit: Option<nat>)
    requires limit.Some? ==> |a| <= limit.value
    ensures Take(a + b, limit) == a + Take(b, if limit.Some? then Some(limit.value - |a|) else None)
  {
  }

  class TableScanner {
    const parts: seq<Data>
    const pred: Option<Predicate>
    var nextIdx: nat
    var current: DatasetScanner?
    var remaining: Option<nat>

    constructor (parts: seq<Data>, pred: Option<Predicate>, limit: Option<nat>)
      requires AllValid(parts)
      ensures Valid() && this.parts == parts && this.pred == pred && nextIdx == 0 && current == null
      ensures Remaining() == Take(RowsFrom(parts, pred, 0), limit)
    {
      hide ScanRows, RowsFrom, Tagged, Data.Valid;
      this.parts, this.pred, nextIdx, current, remaining := parts, pred, 0, null, limit;
    }

    ghost predicate Valid()
      reads this, current
    {
      && AllValid(parts) && nextIdx <= |parts|
      && (current != null ==> nextIdx > 0 && current.remaining == remaining && NonEmpty(current.ranges))
    }

    /** Rows not yet handed out, whatever the limit. */
    ghost function Left(): seq<TableRow>
      requires Valid()
      reads this, current
    {
      (if current != null then Tagged(nextIdx - 1, RowsOf(current.ranges)) else []) + RowsFrom(parts, pred, nextIdx)
    }

    ghost function Remaining(): seq<TableRow>
      requires Valid()
      reads this, current
    {
      Take(Left(), remaining)
    }

    /** The next piece. No partition is opened once the limit is met; an error comes from a
        partition that cannot be scanned. */
    method Next() returns (r: Result<Option<Piece>>)
      requires Valid()
      modifies this, current
      ensures r.Ok? ==> Valid()
      ensures current == old(current) || current == null || fresh(current)
      ensures old(remaining) == Some(0) ==> r == Ok(None) && nextIdx == old(nextIdx)
      ensures r.Ok? && r.value.None? ==> old(Remaining()) == [] && Remaining() == []
      ensures r.Ok? && r.value.Some? ==> old(Remaining()) == PieceRows(r.value.value) + Remaining()
      ensures r.Ok? && r.value.Some? ==> r.value.value.range.length > 0
      ensures AllScan(parts, pred) ==> r.Ok?
    {
      hide RowsOf, ScanRows, Take, Tagged, DatasetScanner.Remaining, RowsFrom, AllScan;
      ghost var all := Left();
      NothingFrom(parts, pred);
      while true
        invariant Valid() && Left() == all && remaining == old(remaining)
        invariant current == old(current) || current == null || fresh(current)
        invariant remaining == Some(0) ==> nextIdx == old(nextIdx)
        decreases |parts| - nextIdx, if current != null then 1 else 0
      {
        if remaining == Some(0) {
          TakeNothing(all);
          return Ok(None);
        }
        if current != null {
          var piece := FromCurrent();
          if piece.Some? { return Ok(piece); }
        }
        if nextIdx >= |parts| {
          TakeAll(all, remaining);
          return Ok(None);
        }
        var next := OpenNext();
        if next.Err? { return Err(next.error); }
      }
    }

    /** A piece of the partition being scanned, cut to the limit; a finished one is let go. */
    method FromCurrent() returns (r: Option<Piece>)
      requires Valid() && current != null && remaining != Some(0)
      modifies this`remaining, this`current, current
      ensures Valid() && (current == old(current) || current == null)
      ensures r.None? ==> current == null && Left() == old(Left()) && remaining == old(remaining)
      ensures r.Some? ==> old(Remaining()) == PieceRows(r.value) + Remaining() && r.value.range.length > 0
    {
      hide RowsOf, ScanRows, Take, Tagged, DatasetScanner.Remaining, RowsFrom;
      ghost var before := current.ranges;
      var found := current.Next();
      if found.None? {
        NoRowsLeft(nextIdx - 1);
        current := null;
        return None;
      }
      var range := found.value;
      if remaining.Some? {
        var take := if range.length < remaining.value then range.length else remaining.value;
        remaining := Some(remaining.value - take);
      }
      var piece := Piece(nextIdx - 1, range);
      PieceTaken(piece, before, RowsFrom(parts, pred, nextIdx), old(remaining));
      if remaining == Some(0) { TakeNothing(Left()); }
      return Some(piece);
    }

    /** Opens the next partition, passing on what is left of the limit. */
    method OpenNext() returns (r: Result<()>)
      requires Valid() && current == null && nextIdx < |parts|
      modifies this`nextIdx, this`current
      ensures nextIdx == old(nextIdx) + 1
      ensures r.Ok? ==> Valid() && current != null && fresh(current) && Left() == old(Left())
      ensures r.Err? ==> current == null
      ensures AllScan(parts, pred) ==> r.Ok?
    {
      hide RowsOf, ScanRows, Take, Tagged, DatasetScanner.Remaining, CanScan;
      var ds := parts[nextIdx];
      nextIdx := nextIdx + 1;
      var scan, rows := ScanDataset(ds, [], pred, remaining);
      if scan.Err? { return Err(scan.error); }
      current := scan.value;
      return Ok(());
    }
  }

  lemma NothingFrom(parts: seq<Data>, pred: Option<Predicate>)
    requires AllValid(parts)
    ensures RowsFrom(parts, pred, |parts|) == []
  {
  }

  lemma TakeNothing<T>(s: seq<T>)
    ensures Take(s, Some(0)) == []
  {
  }

  lemma TakeAll<T>(s: seq<T>, limit: Option<nat>)
    ensures s == [] ==> Take(s, limit) == []
  {
  }

  lemma NoRowsLeft(part: nat)
    ensures Tagged(part, RowsOf([])) == []
  {
  }

  /** A piece cut from the front of a partition's ranges leaves the rest of the rows. */
  lemma PieceTaken(p: Piece, ranges: seq<RowRange>, later: seq<TableRow>, limit: Option<nat>)
    requires ranges != [] && p.range.offset == ranges[0].offset && (limit.Some? ==> limit.value > 0)
    requires p.range.length == if limit.Some? && limit.value < ranges[0].length then limit.value else ranges[0].length
    ensures var all := Tagged(p.part, RowsOf(ranges)) + later;
            var rest := if limit.Some? then Some(limit.value - p.range.length) else None;
            && (rest != Some(0) ==> Take(all, limit) == PieceRows(p) + Take(Tagged(p.part, RowsOf(ranges[1..])) + later, rest))
            && (rest == Some(0) ==> Take(all, limit) == PieceRows(p))
  {
    hide RowsOf;
    var all := Tagged(p.part, RowsOf(ranges)) + later;
    var whole := Span(ranges[0].offset, ranges[0].length);
    RowsOfHead(ranges, 0);
    assert ranges[0..] == ranges;
    TagAppend(p.part, whole, RowsOf(ranges[1..]));
    var tail := Tagged(p.part, RowsOf(ranges[1..])) + later;
    assert all == Tagged(p.part, whole) + tail;
    var n := p.range.length;
    assert PieceRows(p) == Tagged(p.part, whole)[..n];
    if n == ranges[0].length {
      assert PieceRows(p) == Tagged(p.part, whole);
      TakeAppend(Tagged(p.part, whole), tail, limit);
      if limit.Some? { TakeNothing(tail); }
    } else {
      assert Take(all, limit) == all[..n];
    }
  }

  // ----- batches

  ghost function PiecesRows(ps: seq<Piece>): seq<TableRow> {
    if ps == [] then [] else PiecesRows(ps[..|ps| - 1]) + PieceRows(ps[|ps| - 1])
  }

  lemma PiecesMore(ps: seq<Piece>, p: Piece)
    ensures PiecesRows(ps + [p]) == PiecesRows(ps) + PieceRows(p)
  {
    assert (ps + [p])[..|ps|] == ps;
  }

  lemma PieceSplit(p: Piece, take: nat)
    requires take <= p.range.length
    ensures PieceRows(p) == PieceRows(Piece(p.part, RowRange(p.range.offset, take)))
                          + PieceRows(Piece(p.part, RowRange(p.range.offset + take, p.range.length - take)))
  {
  }

  class TableBatchReader {
    const scanner: TableScanner
    const batchSize: Option<nat>
    var pending: Option<Piece>
    var exhausted: bool

    constructor (scanner: TableScanner, batchSize: Option<nat>)
      requires scanner.Valid()
      ensures Valid() && this.scanner == scanner && this.batchSize == batchSize && !exhausted && pending.None?
      ensures Remaining() == scanner.Remaining()
    {
      this.scanner, this.batchSize, pending, exhausted := scanner, batchSize, None, false;
    }

    ghost predicate Valid()
      reads this, scanner, scanner.current
    {
      && scanner.Valid()
      && (pending.Some? ==> pending.value.range.length > 0)
      && (exhausted ==> pending.None? && scanner.Remaining() == [])
    }

    /** Rows not yet in a batch. */
    ghost function Remaining(): seq<TableRow>
      requires Valid()
      reads this, scanner, scanner.current
    {
      (if pending.Some? then PieceRows(pending.value) else []) + scanner.Remaining()
    }

    /** The next piece to read: what was left over first. */
    method PullRange() returns (r: Result<Option<Piece>>)
      requires Valid()
      modifies this, scanner, scanner.current
      ensures r.Ok? ==> Valid()
      ensures scanner.current == old(scanner.current) || scanner.current == null || fresh(scanner.current)
      ensures r.Ok? && r.value.None? ==> old(Remaining()) == [] && Remaining() == [] && exhausted
      ensures r.Ok? && r.value.Some? ==>
                && r.value.value.range.length > 0 && pending.None? && !exhausted
                && old(Remaining()) == PieceRows(r.value.value) + Remaining()
      ensures AllScan(scanner.parts, scanner.pred) ==> r.Ok?
    {
      hide TableScanner.Remaining, TableScanner.Valid, AllScan;
      if pending.Some? {
        var p := pending.value;
        pending := None;
        return Ok(Some(p));
      }
      r := scanner.Next();
      if r.Ok? && r.value.None? { exhausted := true; }
      if r.Ok? && r.value.Some? { PieceLength(r.value.value); }
    }

    /** The next batch; after the end, again nothing. */
    method Next() returns (r: Result<Option<seq<Piece>>>)
      requires Valid()
      modifies this, scanner, scanner.current
      ensures r.Ok? ==> Valid()
      ensures scanner.current == old(scanner.current) || scanner.current == null || fresh(scanner.current)
      ensures old(exhausted) ==> r == Ok(None)
      ensures batchSize == Some(0) && !old(exhausted) ==> r == Err(Invalid)
      ensures r.Ok? && r.value.None? ==> old(Remaining()) == [] && Remaining() == []
      ensures r.Ok? && r.value.Some? ==>
                old(Remaining()) == PiecesRows(r.value.value) + Remaining() && 0 < |PiecesRows(r.value.value)|
      ensures r.Ok? && r.value.Some? && batchSize.Some? ==>
                && |PiecesRows(r.value.value)| <= batchSize.value
                && (|PiecesRows(r.value.value)| < batchSize.value ==> Remaining() == [])
      ensures AllScan(scanner.parts, scanner.pred) && batchSize != Some(0) ==> r.Ok?
    {
      hide TableScanner.Remaining, TableScanner.Valid, PieceRows, AllScan;
      if exhausted { return Ok(None); }
      if batchSize.Some? {
        if batchSize.value == 0 { return Err(Invalid); }
        r := NextBatch(batchSize.value);
        return;
      }
      var next := PullRange();
      if next.Err? { return Err(next.error); }
      if next.value.None? { return Ok(None); }
      NoPieces();
      PiecesMore([], next.value.value);
      PieceLength(next.value.value);
      assert [] + [next.value.value] == [next.value.value];
      return Ok(Some([next.value.value]));
    }

    /** One batch of exactly `size` rows, fewer only at the end: a piece that reaches past
        the batch is cut and its rest kept for the next one. */
    method NextBatch(size: nat) returns (r: Result<Option<seq<Piece>>>)
      requires Valid() && size > 0
      modifies this, scanner, scanner.current
      ensures r.Ok? ==> Valid()
      ensures scanner.current == old(scanner.current) || scanner.current == null || fresh(scanner.current)
      ensures r.Ok? && r.value.None? ==> old(Remaining()) == [] && Remaining() == []
      ensures r.Ok? && r.value.Some? ==>
                && old(Remaining()) == PiecesRows(r.value.value) + Remaining()
                && 0 < |PiecesRows(r.value.value)| <= size
                && (|PiecesRows(r.value.value)| < size ==> Remaining() == [])
      ensures AllScan(scanner.parts, scanner.pred) ==> r.Ok?
    {
      hide TableScanner.Remaining, TableScanner.Valid, PieceRows, Valid, Remaining, PiecesRows, AllScan;
      var pieces: seq<Piece> := [];
      var total := 0;
      ghost var all := Remaining();
      NoPieces();
      while total < size
        invariant Valid() && 0 <= total <= size
        invariant scanner.current == old(scanner.current) || scanner.current == null || fresh(scanner.current)
        invariant all == PiecesRows(pieces) + Remaining() && |PiecesRows(pieces)| == total
        invariant pieces != [] ==> total > 0
        decreases size - total
      {
        var next := TakePiece(size - total);
        if next.Err? { return Err(next.error); }
        if next.value.None? { break; }
        PiecesMore(pieces, next.value.value);
        PieceLength(next.value.value);
        pieces := pieces + [next.value.value];
        total := total + next.value.value.range.length;
      }
      if pieces == [] { return Ok(None); }
      return Ok(Some(pieces));
    }

    /** At most `room` rows of the next piece; the rest of it waits. */
    method TakePiece(room: nat) returns (r: Result<Option<Piece>>)
      requires Valid() && room > 0
      modifies this, scanner, scanner.current
      ensures r.Ok? ==> Valid()
      ensures scanner.current == old(scanner.current) || scanner.current == null || fresh(scanner.current)
      ensures r.Ok? && r.value.None? ==> old(Remaining()) == [] && Remaining() == []
      ensures r.Ok? && r.value.Some? ==>
                && 0 < r.value.value.range.length <= room
                && old(Remaining()) == PieceRows(r.value.value) + Remaining()
      ensures AllScan(scanner.parts, scanner.pred) ==> r.Ok?
    {
      hide TableScanner.Remaining, TableScanner.Valid, PieceRows, AllScan;
      var next := PullRange();
      if next.Err? || next.value.None? { return next; }
      var p := next.value.value;
      if room < p.range.length {
        PieceSplit(p, room);
        pending := Some(Piece(p.part, RowRange(p.range.offset + room, p.range.length - room)));
        return Ok(Some(Piece(p.part, RowRange(p.range.offset, room))));
      }
      return Ok(Some(p));
    }
  }

  lemma NoPieces()
    ensures PiecesRows([]) == []
  {
  }

  lemma PieceLength(p: Piece)
    ensures |PieceRows(p)| == p.range.length
  {
  }

  ghost function BatchesRows(bs: seq<seq<Piece>>): seq<TableRow> {
    if bs == [] then [] else BatchesRows(bs[..|bs| - 1]) + PiecesRows(bs[|bs| - 1])
  }

  lemma BatchesMore(bs: seq<seq<Piece>>, b: seq<Piece>)
    ensures BatchesRows(bs + [b]) == BatchesRows(bs) + PiecesRows(b)
  {
    assert (bs + [b])[..|bs|] == bs;
  }

  /** Every batch but the last holds exactly the batch size. */
  ghost predicate FullBatches(bs: seq<seq<Piece>>, size: nat) {
    && (forall i :: 0 <= i < |bs| - 1 ==> |PiecesRows(bs[i])| == size)
    && (bs != [] ==> 0 < |PiecesRows(bs[|bs| - 1])| <= size)
  }

  /** Scanning a table to the end in batches gives the first `limit` rows of its partitions
      in order, none lost or repeated. */
  method ReadAll(parts: seq<Data>, pred: Option<Predicate>, limit: Option<nat>, size: nat)
    returns (r: Result<seq<seq<Piece>>>)
    requires AllValid(parts) && size > 0
    ensures r.Ok? ==> BatchesRows(r.value) == Take(RowsFrom(parts, pred, 0), limit) && FullBatches(r.value, size)
    ensures AllScan(parts, pred) ==> r.Ok?
  {
    hide AllScan, TableScanner.Remaining, TableScanner.Valid, TableBatchReader.Remaining,
         TableBatchReader.Valid, PiecesRows, BatchesRows, RowsFrom, Take;
    var scanner := new TableScanner(parts, pred, limit);
    var reader := new TableBatchReader(scanner, Some(size));
    var out: seq<seq<Piece>> := [];
    ghost var all := reader.Remaining();
    NoBatches();
    while true
      invariant fresh(reader) && fresh(scanner) && (scanner.current != null ==> fresh(scanner.current))
      invariant reader.Valid() && reader.scanner == scanner && reader.batchSize == Some(size)
      invariant BatchesRows(out) + reader.Remaining() == all
      invariant FullBatches(out, size)
      invariant out != [] && |PiecesRows(out[|out| - 1])| < size ==> reader.Remaining() == []
      decreases |reader.Remaining()|
    {
      var b := reader.Next();
      if b.Err? { return Err(b.error); }
      if b.value.None? { return Ok(out); }
      BatchesMore(out, b.value.value);
      out := out + [b.value.value];
    }
  }

  lemma NoBatches()
    ensures BatchesRows([]) == []
  {
  }
}
