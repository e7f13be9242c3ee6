/** Looking keys up in the index: bisection over names and axis, and the batch
    locator, which walks both with cursors that only move forward. */
module MetaLocate {
  import opened Bits
  import opened Formats
  import opened Order
  import opened Ranges
  import opened Meta

  // ----- bisection

  /** The first axis position whose time is at least `v`. */
  method AxisLowerBound(idx: Index, v: nat) returns (lo: nat)
    requires idx.Valid()
    ensures lo <= |idx.axis|
    ensures forall i :: 0 <= i < lo ==> idx.axis[i] < v
    ensures forall i :: lo <= i < |idx.axis| ==> idx.axis[i] >= v
  {
    lo := 0;
    var hi := |idx.axis|;
    while lo < hi
      invariant 0 <= lo <= hi <= |idx.axis|
      invariant forall i :: 0 <= i < lo ==> idx.axis[i] < v
      invariant forall i :: hi <= i < |idx.axis| ==> idx.axis[i] >= v
    {
      var mid := (lo + hi) / 2;
      if idx.axis[mid] < v { lo := mid + 1; } else { hi := mid; }
    }
  }

  method AxisIndexOf(idx: Index, v: nat) returns (r: Option<nat>)
    requires idx.Valid()
    ensures r.Some? <==> v in idx.axis
    ensures r.Some? ==> r.value < |idx.axis| && idx.axis[r.value] == v
  {
    var lo, hi := 0, |idx.axis|;
    while lo < hi
      invariant 0 <= lo <= hi <= |idx.axis|
      invariant forall i :: 0 <= i < |idx.axis| && !(lo <= i < hi) ==> idx.axis[i] != v
    {
      var mid := (lo + hi) / 2;
      if idx.axis[mid] < v { lo := mid + 1; }
      else if idx.axis[mid] > v { hi := mid; }
      else { return Some(mid); }
    }
    return None;
  }

  method SymIdOf(idx: Index, name: Str) returns (r: Option<nat>)
    requires idx.Valid() && LexIncreasing(idx.names)
    ensures r.Some? <==> name in idx.names
    ensures r.Some? ==> r.value < |idx.names| && idx.names[r.value] == name
  {
    var lo, hi := 0, |idx.names|;
    while lo < hi
      invariant 0 <= lo <= hi <= |idx.names|
      invariant forall i :: 0 <= i < |idx.names| && !(lo <= i < hi) ==> idx.names[i] != name
    {
      var mid := lo + (hi - lo) / 2;
      LexTotal(idx.names[mid], name);
      if LexLess(idx.names[mid], name) {
        NamesBelow(idx.names, mid, name);
        lo := mid + 1;
      } else if LexLess(name, idx.names[mid]) {
        NamesAbove(idx.names, mid, name);
        hi := mid;
      } else {
        return Some(mid);
      }
    }
    return None;
  }

  lemma NamesBelow(names: seq<Str>, m: nat, name: Str)
    requires LexIncreasing(names) && m < |names| && LexLess(names[m], name)
    ensures forall i :: 0 <= i <= m ==> LexLess(names[i], name) && names[i] != name
  {
    forall i | 0 <= i <= m
      ensures LexLess(names[i], name) && names[i] != name
    {
      if i < m { LexTransitive(names[i], names[m], name); }
      LexIrreflexive(name);
    }
  }

  lemma NamesAbove(names: seq<Str>, m: nat, name: Str)
    requires LexIncreasing(names) && m < |names| && LexLess(name, names[m])
    ensures forall i :: m <= i < |names| ==> LexLess(name, names[i]) && names[i] != name
  {
    forall i | m <= i < |names|
      ensures LexLess(name, names[i]) && names[i] != name
    {
      if i > m { LexTransitive(name, names[m], names[i]); }
      LexIrreflexive(name);
    }
  }

  // ----- keys

  /** A lookup key; the caller's time is a signed 64-bit value. */
  datatype Key = Key(sym: Str, time: int)

  ghost predicate Signed(keys: seq<Key>) {
    forall i :: 0 <= i < |keys| ==> -0x8000_0000_0000_0000 <= keys[i].time < 0x8000_0000_0000_0000
  }

  /** `time as u64` */
  function AsU64(t: int): nat { t % TWO_64 }

  lemma DistinctPatterns(a: Key, b: Key)
    requires Signed([a, b]) && KeyBefore(a, b) && a.sym == b.sym
    ensures AsU64(a.time) != AsU64(b.time)
  {
    assert [a, b][0] == a && [a, b][1] == b;
    LexIrreflexive(a.sym);
  }

  predicate KeyBefore(a: Key, b: Key) {
    LexLess(a.sym, b.sym) || (a.sym == b.sym && a.time < b.time)
  }

  ghost predicate SortedKeys(keys: seq<Key>) {
    forall i :: 0 < i < |keys| ==> KeyBefore(keys[i - 1], keys[i])
  }

  /** Within a symbol, the order is also the order of the unsigned patterns: no step
      from a negative time to a non-negative one. */
  ghost predicate PatternsRise(keys: seq<Key>) {
    forall i :: 0 < i < |keys| && keys[i - 1].sym == keys[i].sym ==> AsU64(keys[i - 1].time) < AsU64(keys[i].time)
  }

  ghost predicate NonNegative(keys: seq<Key>) { forall i :: 0 <= i < |keys| ==> keys[i].time >= 0 }

  /** Times from the epoch on rise as patterns too. */
  lemma NonNegativeRise(keys: seq<Key>)
    requires Signed(keys)
    ensures SortedKeys(keys) && NonNegative(keys) ==> PatternsRise(keys)
  {
    if SortedKeys(keys) && NonNegative(keys) {
      forall i | 0 < i < |keys| && keys[i - 1].sym == keys[i].sym
        ensures AsU64(keys[i - 1].time) < AsU64(keys[i].time)
      {
        assert KeyBefore(keys[i - 1], keys[i]);
        LexIrreflexive(keys[i].sym);
      }
    }
  }

  /** Sorted keys rise as patterns unless one symbol's keys step from before the epoch past it. */
  lemma RiseMeaning(keys: seq<Key>)
    requires Signed(keys) && SortedKeys(keys)
    ensures PatternsRise(keys) <==>
              forall i :: 0 < i < |keys| && keys[i - 1].sym == keys[i].sym ==> !(keys[i - 1].time < 0 <= keys[i].time)
  {
    hide LexLess, AsU64;
    forall i | 0 < i < |keys| && keys[i - 1].sym == keys[i].sym
      ensures AsU64(keys[i - 1].time) < AsU64(keys[i].time) <==> !(keys[i - 1].time < 0 <= keys[i].time)
    {
      assert KeyBefore(keys[i - 1], keys[i]);
      LexIrreflexive(keys[i].sym);
      PatternIs(keys[i - 1].time);
      PatternIs(keys[i].time);
    }
  }

  ghost function RowOfKey(key: Key): Row { Row(key.sym, AsU64(key.time)) }

  /** The order of keys: by the bytes of the symbol, then by time. */
  lemma KeyOrder(a: Key, b: Key)
    ensures KeyBefore(a, b) <==> if a.sym == b.sym then a.time < b.time else ByteOrder(a.sym, b.sym)
  {
    hide LexLess;
    LexMeaning(a.sym, b.sym);
    LexIrreflexive(a.sym);
  }

  /** The key is a row of the grid. */
  ghost predicate Present(idx: Index, key: Key)
    requires idx.Valid()
  {
    RowOfKey(key) in idx.Rows()
  }

  /** Position `t` of symbol `j`'s axis slice carries the key. */
  ghost predicate At(idx: Index, j: nat, t: nat, key: Key)
    requires idx.Valid()
  {
    && j < |idx.recs| && idx.recs[j].ContainsTime(t)
    && idx.names[j] == key.sym && idx.axis[t] == AsU64(key.time)
  }

  lemma PresentAt(idx: Index, key: Key)
    requires idx.Valid() && Present(idx, key)
    ensures exists j: nat, t: nat :: At(idx, j, t, key)
  {
    GridLength(idx);
    var row: nat :| row < |idx.Rows()| && idx.Rows()[row] == RowOfKey(key);
    var j, t := FindRow(idx, row);
    assert At(idx, j, t, key);
  }

  lemma FindRow(idx: Index, row: nat) returns (j: nat, t: nat)
    requires idx.Valid() && row < idx.RowCount()
    ensures j < |idx.recs| && idx.recs[j].ContainsTime(t) && row == idx.recs[j].rowStart + (t - idx.recs[j].timeStart)
    ensures |idx.Rows()| == idx.RowCount() && idx.Rows()[row] == Row(idx.names[j], idx.axis[t])
  {
    hide Index.Rows;
    j := FindBlock(idx, row, |idx.recs| - 1);
    t := idx.recs[j].timeStart + (row - idx.recs[j].rowStart);
    RowAt(idx, j, row - idx.recs[j].rowStart);
  }

  lemma {:induction false} FindBlock(idx: Index, row: nat, m: nat) returns (j: nat)
    requires idx.Valid() && m < |idx.recs| && row < idx.recs[m].RowEnd()
    ensures j < |idx.recs| && idx.recs[j].rowStart <= row < idx.recs[j].RowEnd()
  {
    if row >= idx.recs[m].rowStart { j := m; } else { j := FindBlock(idx, row, m - 1); }
  }

  lemma AtRow(idx: Index, j: nat, t: nat, key: Key)
    requires idx.Valid() && At(idx, j, t, key)
    ensures idx.recs[j].rowStart + (t - idx.recs[j].timeStart) < |idx.Rows()|
    ensures idx.Rows()[idx.recs[j].rowStart + (t - idx.recs[j].timeStart)] == RowOfKey(key)
    ensures Present(idx, key)
  {
    hide Index.Rows;
    RowAt(idx, j, t - idx.recs[j].timeStart);
  }

  lemma PresentIff(idx: Index, key: Key)
    requires idx.Valid()
    ensures Present(idx, key) <==> exists j: nat, t: nat :: At(idx, j, t, key)
  {
    if Present(idx, key) { PresentAt(idx, key); }
    if exists j: nat, t: nat :: At(idx, j, t, key) {
      var j: nat, t: nat :| At(idx, j, t, key);
      AtRow(idx, j, t, key);
    }
  }

  /** A key is present when some row has its symbol and its time, a negative time standing for
      the pattern 2^64 above it. */
  lemma PresentMeaning(idx: Index, key: Key)
    requires idx.Valid() && Signed([key])
    ensures Present(idx, key) <==> exists g: nat :: g < |idx.Rows()| && IsKey(idx.Rows()[g], key)
  {
    hide Index.Rows;
    assert [key][0] == key;
    forall row: Row
      ensures IsKey(row, key) <==> row == RowOfKey(key)
    {
      PatternIs(key.time);
    }
    if Present(idx, key) {
      var g: nat :| g < |idx.Rows()| && idx.Rows()[g] == RowOfKey(key);
      assert IsKey(idx.Rows()[g], key);
    }
  }

  predicate IsKey(row: Row, key: Key) {
    row.sym == key.sym && row.time == if key.time < 0 then 0x1_0000_0000_0000_0000 + key.time else key.time
  }

  lemma PatternIs(t: int)
    requires -0x8000_0000_0000_0000 <= t < 0x8000_0000_0000_0000
    ensures AsU64(t) == if t < 0 then 0x1_0000_0000_0000_0000 + t else t
  {
    ModUnique(t, TWO_64, if t < 0 then -1 else 0, if t < 0 then t + TWO_64 else t);
  }

  /** A date before the epoch has a 32-bit pattern on the axis, but is looked up by its
      64-bit pattern, so it is never found. */
  lemma NegativeDateAbsent(idx: Index, key: Key)
    requires idx.Valid() && idx.tt.Date32? && -0x8000_0000 <= key.time < 0
    ensures !Present(idx, key)
  {
    hide Index.Rows;
    forall j: nat, t: nat
      ensures !At(idx, j, t, key)
    {
      if j < |idx.recs| && idx.recs[j].ContainsTime(t) { assert idx.axis[t] < TWO_32; }
    }
    PresentIff(idx, key);
  }

  // ----- the batch locator

  /** Moves the symbol cursor forward to `sym`. */
  method AdvanceSym(idx: Index, from: nat, sym: Str) returns (r: Result<nat>)
    requires idx.Valid() && LexIncreasing(idx.names) && from <= |idx.names|
    requires forall i :: 0 <= i < from ==> LexLess(idx.names[i], sym)
    ensures r.Ok? <==> sym in idx.names
    ensures r.Ok? ==> from <= r.value < |idx.names| && idx.names[r.value] == sym
    ensures r.Err? ==> r.error == Invalid
  {
    var cursor := from;
    while cursor < |idx.names|
      invariant from <= cursor <= |idx.names|
      invariant forall i :: 0 <= i < cursor ==> LexLess(idx.names[i], sym)
    {
      LexTotal(idx.names[cursor], sym);
      if LexLess(idx.names[cursor], sym) {
        cursor := cursor + 1;
      } else if idx.names[cursor] == sym {
        break;
      } else {
        NamesAbove(idx.names, cursor, sym);
        BelowNot(idx.names, cursor, sym);
        return Err(Invalid);
      }
    }
    if cursor >= |idx.names| {
      BelowNot(idx.names, cursor, sym);
      return Err(Invalid);
    }
    return Ok(cursor);
  }

  lemma BelowNot(names: seq<Str>, n: nat, sym: Str)
    requires n <= |names| && forall i :: 0 <= i < n ==> LexLess(names[i], sym)
    ensures forall i :: 0 <= i < n ==> names[i] != sym
  {
    LexIrreflexive(sym);
  }

  /** Moves the time cursor forward inside a symbol's slice to the first time not below `u`. */
  method AdvanceTime(idx: Index, rec: SymRecord, from: nat, u: nat) returns (t: nat)
    requires idx.Valid() && rec in idx.recs && rec.ContainsTime(from)
    ensures from <= t <= rec.timeStart + rec.timeCount
    ensures forall i :: from <= i < t ==> idx.axis[i] < u
    ensures rec.ContainsTime(t) ==> idx.axis[t] >= u
  {
    t := from;
    while t < rec.timeStart + rec.timeCount
      invariant from <= t <= rec.timeStart + rec.timeCount
      invariant forall i :: from <= i < t ==> idx.axis[i] < u
    {
      if idx.axis[t] >= u { break; }
      t := t + 1;
    }
  }

  lemma NoRows(idx: Index, keys: seq<Key>)
    requires idx.Valid()
    ensures Located(idx, keys, 0, 0, 0, [])
  {
  }

  lemma UnknownSymAbsent(idx: Index, key: Key)
    requires idx.Valid() && key.sym !in idx.names
    ensures !Present(idx, key)
  {
    hide Index.Rows;
    forall j: nat, t: nat
      ensures !At(idx, j, t, key)
    {
      if j < |idx.names| { assert idx.names[j] in idx.names; }
    }
    PresentIff(idx, key);
  }

  /** A time passed over, or stepped over, by the cursor is nowhere in the symbol's slice. */
  lemma UnknownTimeAbsent(idx: Index, sym: nat, from: nat, t: nat, key: Key)
    requires idx.Valid() && LexIncreasing(idx.names) && sym < |idx.recs| && idx.names[sym] == key.sym
    requires var rec, u := idx.recs[sym], AsU64(key.time);
             && rec.ContainsTime(from) && from <= t <= rec.timeStart + rec.timeCount
             && (from == rec.timeStart || idx.axis[from] < u)
             && (forall i :: from <= i < t ==> idx.axis[i] < u)
             && (rec.ContainsTime(t) ==> idx.axis[t] > u)
    ensures !Present(idx, key)
  {
    hide Index.Rows, AsU64;
    assert Increasing(idx.axis);
    forall j: nat, x: nat
      ensures !At(idx, j, x, key)
    {
      if j < |idx.names| && j != sym { DistinctNames(idx.names, j, sym); }
    }
    PresentIff(idx, key);
  }

  lemma DistinctNames(names: seq<Str>, i: nat, j: nat)
    requires LexIncreasing(names) && i < |names| && j < |names| && i != j
    ensures names[i] != names[j]
  {
    LexIrreflexive(names[i]);
  }

  /** The state of the locator after some keys: cursors on the last key, rows of all. */
  ghost predicate Located(idx: Index, keys: seq<Key>, n: nat, sym: nat, t: nat, ranges: seq<RowRange>)
    requires idx.Valid()
  {
    && n <= |keys|
    && Canonical(ranges)
    && |RowsOf(ranges)| == n
    && (forall i :: 0 <= i < n ==> RowsOf(ranges)[i] < |idx.Rows()| && idx.Rows()[RowsOf(ranges)[i]] == RowOfKey(keys[i]))
    && (n == 0 <==> ranges == [])
    && (n > 0 ==> At(idx, sym, t, keys[n - 1]))
    && (n > 0 ==> ranges[|ranges| - 1].End() == idx.recs[sym].rowStart + (t - idx.recs[sym].timeStart) + 1)
  }

  lemma LocatedStep(idx: Index, keys: seq<Key>, n: nat, sym: nat, t: nat, ranges: seq<RowRange>,
                    sym': nat, t': nat, ranges': seq<RowRange>)
    requires idx.Valid() && Located(idx, keys, n, sym, t, ranges) && n < |keys|
    requires At(idx, sym', t', keys[n])
    requires n > 0 ==> sym < sym' || (sym == sym' && t < t')
    requires var row := idx.recs[sym'].rowStart + (t' - idx.recs[sym'].timeStart);
             ranges' == if ranges != [] && ranges[|ranges| - 1].End() == row
                        then ranges[|ranges| - 1 := RowRange(ranges[|ranges| - 1].offset, ranges[|ranges| - 1].length + 1)]
                        else ranges + [RowRange(row, 1)]
    ensures Located(idx, keys, n + 1, sym', t', ranges')
  {
    hide Index.Rows, Index.Valid, RowsOf, Canonical;
    var row := idx.recs[sym'].rowStart + (t' - idx.recs[sym'].timeStart);
    AtRow(idx, sym', t', keys[n]);
    if n > 0 && sym < sym' { BlocksOrdered(idx, sym, sym'); }
    if ranges != [] && ranges[|ranges| - 1].End() == row { LengthenRows(ranges); } else { AppendRow(ranges, row); }
  }

  /** One more row, right after the last range or past a gap. */
  lemma LengthenRows(ranges: seq<RowRange>)
    requires Canonical(ranges) && ranges != []
    ensures var m, last := |ranges| - 1, ranges[|ranges| - 1];
            var next := ranges[m := RowRange(last.offset, last.length + 1)];
            Canonical(next) && RowsOf(next) == RowsOf(ranges) + [last.End()]
  {
    var m := |ranges| - 1;
    var next := ranges[m := RowRange(ranges[m].offset, ranges[m].length + 1)];
    assert next[..m] == ranges[..m];
    assert Span(ranges[m].offset, ranges[m].length + 1) == Span(ranges[m].offset, ranges[m].length) + [ranges[m].End()];
  }

  lemma AppendRow(ranges: seq<RowRange>, row: nat)
    requires Canonical(ranges) && (ranges != [] ==> ranges[|ranges| - 1].End() < row)
    ensures Canonical(ranges + [RowRange(row, 1)])
    ensures RowsOf(ranges + [RowRange(row, 1)]) == RowsOf(ranges) + [row]
  {
    assert (ranges + [RowRange(row, 1)])[..|ranges|] == ranges;
    assert Span(row, 1) == [row];
    AppendSorted(ranges, RowRange(row, 1));
  }

  /** Where the cursors stand before a key: nowhere yet, or on the previous key. */
  ghost predicate CursorsAt(idx: Index, prev: Option<Key>, sym: nat, rec: Option<SymRecord>, t: nat)
    requires idx.Valid()
  {
    if prev.None? then sym == 0 && rec.None?
    else At(idx, sym, t, prev.value) && rec == Some(idx.recs[sym])
  }

  /** Moves the cursors to one key, or finds that it is not ahead of them. */
  method Seek(idx: Index, prev: Option<Key>, key: Key, sym: nat, rec: Option<SymRecord>, t: nat)
    returns (r: Result<(nat, nat)>)
    requires idx.Valid() && LexIncreasing(idx.names) && CursorsAt(idx, prev, sym, rec, t)
    requires prev.Some? ==> KeyBefore(prev.value, key) && Signed([prev.value, key])
    ensures r.Ok? <==> (Present(idx, key) && (prev.Some? && prev.value.sym == key.sym ==> AsU64(prev.value.time) < AsU64(key.time)))
    ensures r.Ok? ==> At(idx, r.value.0, r.value.1, key)
    ensures r.Ok? && prev.Some? ==> sym < r.value.0 || (sym == r.value.0 && t < r.value.1)
    ensures r.Err? ==> r.error == Invalid
  {
    hide Index.Rows, LexIncreasing, LexLess, AsU64;
    var u := AsU64(key.time);
    var sameSym := prev.Some? && prev.value.sym == key.sym;
    if sameSym {
      DistinctPatterns(prev.value, key);
      var t' := AdvanceTime(idx, rec.value, t, u);
      if t' >= rec.value.timeStart + rec.value.timeCount || idx.axis[t'] != u {
        if idx.axis[t] < u { UnknownTimeAbsent(idx, sym, t, t', key); }
        return Err(Invalid);
      }
      AtRow(idx, sym, t', key);
      return Ok((sym, t'));
    }
    if prev.Some? { NamesBelow(idx.names, sym, key.sym); LexIrreflexive(key.sym); }
    var found := AdvanceSym(idx, sym, key.sym);
    if found.Err? {
      UnknownSymAbsent(idx, key);
      return Err(Invalid);
    }
    var sym' := found.value;
    var rec' := idx.recs[sym'];
    var t' := AdvanceTime(idx, rec', rec'.timeStart, u);
    if t' >= rec'.timeStart + rec'.timeCount || idx.axis[t'] != u {
      UnknownTimeAbsent(idx, sym', rec'.timeStart, t', key);
      return Err(Invalid);
    }
    AtRow(idx, sym', t', key);
    return Ok((sym', t'));
  }

  /** Batch lookup. It succeeds exactly when the keys are strictly sorted, no symbol's
      keys step from a negative to a non-negative time, and every key is a row; the
      ranges then list the keys' rows in order, and none could be joined to the next. */
  method Locate(idx: Index, keys: seq<Key>) returns (r: Result<seq<RowRange>>)
    requires idx.Valid() && LexIncreasing(idx.names) && Signed(keys)
    ensures r.Ok? <==> SortedKeys(keys) && PatternsRise(keys) && forall i :: 0 <= i < |keys| ==> Present(idx, keys[i])
    ensures r.Ok? ==> Canonical(r.value) && |RowsOf(r.value)| == |keys|
    ensures r.Ok? ==> forall i :: 0 <= i < |keys| ==>
              RowsOf(r.value)[i] < |idx.Rows()| && idx.Rows()[RowsOf(r.value)[i]] == RowOfKey(keys[i])
    ensures r.Err? ==> r.error == Invalid
    ensures NonNegative(keys) ==> (r.Ok? <==> SortedKeys(keys) && forall i :: 0 <= i < |keys| ==> Present(idx, keys[i]))
  {
    hide Index.Rows, RowsOf, Canonical, LexIncreasing, LexLess, AsU64, NonNegative;
    NonNegativeRise(keys);
    NoRows(idx, keys);
    if keys == [] { return Ok([]); }
    var ranges, symCursor, timeCursor, cachedRec := [], 0, 0, None;
    for i := 0 to |keys|
      invariant symCursor >= 0 && timeCursor >= 0 && Located(idx, keys, i, symCursor, timeCursor, ranges)
      invariant CursorsAt(idx, if i == 0 then None else Some(keys[i - 1]), symCursor, cachedRec, timeCursor)
      invariant forall k :: 0 < k < i ==> KeyBefore(keys[k - 1], keys[k])
      invariant forall k :: 0 < k < i && keys[k - 1].sym == keys[k].sym ==> AsU64(keys[k - 1].time) < AsU64(keys[k].time)
      invariant forall k :: 0 <= k < i ==> Present(idx, keys[k])
    {
      if i > 0 && !KeyBefore(keys[i - 1], keys[i]) { return Err(Invalid); }
      var sought := Seek(idx, if i == 0 then None else Some(keys[i - 1]), keys[i], symCursor, cachedRec, timeCursor);
      if sought.Err? { return Err(Invalid); }
      var (sym, t) := sought.value;
      var rec := idx.recs[sym];
      var row := rec.rowStart + (t - rec.timeStart);
      ghost var was := ranges;
      if ranges != [] && ranges[|ranges| - 1].End() == row {
        ranges := ranges[|ranges| - 1 := RowRange(ranges[|ranges| - 1].offset, ranges[|ranges| - 1].length + 1)];
      } else {
        ranges := ranges + [RowRange(row, 1)];
      }
      LocatedStep(idx, keys, i, symCursor, timeCursor, was, sym, t, ranges);
      symCursor, timeCursor, cachedRec := sym, t, Some(rec);
    }
    return Ok(ranges);
  }
}
