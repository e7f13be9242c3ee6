/** Collecting scattered row spans into a new column, and building string dictionaries. */
module Gather {
  import opened Bits
  import opened Bitmap
  import opened Chunk
  import opened ChunkStream
  import opened Columns
  import opened Formats
  import opened Order
  import opened Runs

  ghost predicate RunsFit(runs: seq<Run>, n: nat) {
    forall k :: 0 <= k < |runs| ==> runs[k].End() <= n
  }

  /** The listed stretches of a list, one after another. */
  ghost function Gathered<T>(list: seq<T>, runs: seq<Run>): seq<T>
    requires RunsFit(runs, |list|)
  {
    if runs == [] then [] else
      var m := |runs| - 1;
      assert runs[m].End() <= |list|;
      Gathered(list, runs[..m]) + list[runs[m].start..runs[m].End()]
  }

  function Total(runs: seq<Run>): nat {
    if runs == [] then 0 else Total(runs[..|runs| - 1]) + runs[|runs| - 1].len
  }

  lemma {:induction false} GatheredLength<T>(list: seq<T>, runs: seq<Run>)
    requires RunsFit(runs, |list|)
    ensures |Gathered(list, runs)| == Total(runs)
  {
    if runs != [] {
      assert runs[|runs| - 1].End() <= |list|;
      GatheredLength(list, runs[..|runs| - 1]);
    }
  }

  lemma GatheredMore<T>(list: seq<T>, runs: seq<Run>, k: nat)
    requires RunsFit(runs, |list|) && k < |runs|
    ensures runs[k].End() <= |list| && RunsFit(runs[..k], |list|) && RunsFit(runs[..k + 1], |list|)
    ensures Gathered(list, runs[..k + 1]) == Gathered(list, runs[..k]) + list[runs[k].start..runs[k].End()]
    ensures Total(runs[..k + 1]) == Total(runs[..k]) + runs[k].len
  {
    assert runs[..k + 1][..k] == runs[..k];
    assert runs[k].End() <= |list|;
  }

  lemma {:induction false} TotalPrefix(runs: seq<Run>, k: nat)
    requires k <= |runs|
    ensures Total(runs[..k]) <= Total(runs)
  {
    if k < |runs| {
      TotalPrefix(runs[..|runs| - 1], k);
      assert runs[..|runs| - 1][..k] == runs[..k];
    } else {
      assert runs[..k] == runs;
    }
  }

  // ----- fixed-width columns

  /** The byte stretches of the rows of the runs. */
  ghost function GatheredBytes(values: seq<byte>, s: nat, runs: seq<Run>): seq<byte>
    requires forall k :: 0 <= k < |runs| ==> runs[k].start * s <= runs[k].End() * s <= |values|
  {
    if runs == [] then [] else
      var m := |runs| - 1;
      GatheredBytes(values, s, runs[..m]) + values[runs[m].start * s..runs[m].End() * s]
  }

  lemma RunBytesFit(values: seq<byte>, s: nat, rows: nat, runs: seq<Run>)
    requires |values| == rows * s && RunsFit(runs, rows)
    ensures forall k :: 0 <= k < |runs| ==> runs[k].start * s <= runs[k].End() * s <= |values|
  {
    forall k | 0 <= k < |runs|
      ensures runs[k].start * s <= runs[k].End() * s <= |values|
    {
      MulSum(runs[k].start, runs[k].len, s);
      MulSum(runs[k].End(), rows - runs[k].End(), s);
    }
  }

  /** Gathering bytes and bits gathers cells. */
  lemma {:induction false} GatherCells(values: seq<byte>, bits: seq<bool>, s: nat, runs: seq<Run>)
    requires |values| == |bits| * s && RunsFit(runs, |bits|)
    requires forall k :: 0 <= k < |runs| ==> runs[k].start * s <= runs[k].End() * s <= |values|
    ensures |GatheredBytes(values, s, runs)| == |Gathered(bits, runs)| * s
    ensures CellsFrom(GatheredBytes(values, s, runs), Gathered(bits, runs), s) == Gathered(CellsFrom(values, bits, s), runs)
  {
    hide CellsFrom;
    if runs == [] {
      NoCellsAtAll(s);
    } else {
      var m := |runs| - 1;
      assert runs[m].End() <= |bits|;
      GatherCells(values, bits, s, runs[..m]);
      CellsSlice(values, bits, s, runs[m].start, runs[m].End());
      CellsJoin(GatheredBytes(values, s, runs[..m]), Gathered(bits, runs[..m]),
                values[runs[m].start * s..runs[m].End() * s], bits[runs[m].start..runs[m].End()], s);
    }
  }

  lemma NoCellsAtAll(s: nat)
    ensures CellsFrom([], [], s) == []
  {
  }

  /** One copy for each run into a buffer of the final size. */
  method GatherFixed(values: seq<byte>, s: nat, rows: nat, runs: seq<Run>) returns (out: seq<byte>)
    requires |values| == rows * s && RunsFit(runs, rows)
    ensures forall k :: 0 <= k < |runs| ==> runs[k].start * s <= runs[k].End() * s <= |values|
    ensures out == GatheredBytes(values, s, runs)
  {
    hide GatheredBytes, Total, Splice;
    RunBytesFit(values, s, rows, runs);
    var total := 0;
    assert runs[..0] == [];
    TotalNone();
    for k := 0 to |runs|
      invariant total == Total(runs[..k])
    {
      TotalMore(runs, k);
      total := total + runs[k].len;
    }
    assert runs[..|runs|] == runs;
    var dst := new byte[total * s](_ => 0);
    var at := 0;
    BytesNone(values, s);
    for k := 0 to |runs|
      invariant at == |GatheredBytes(values, s, runs[..k])| <= dst.Length
      invariant dst[..at] == GatheredBytes(values, s, runs[..k])
    {
      var part := values[runs[k].start * s..runs[k].End() * s];
      BytesMore(values, s, runs, k);
      BytesBound(values, s, runs, k + 1);
      PutAfter(dst, at, part);
      at := at + |part|;
    }
    BytesBound(values, s, runs, |runs|);
    assert dst[..at] == dst[..];
    return dst[..];
  }

  method PutAfter(dst: array<byte>, at: nat, part: seq<byte>)
    requires at + |part| <= dst.Length
    modifies dst
    ensures dst[..at + |part|] == old(dst[..at]) + part
  {
    ghost var before := dst[..];
    CopyInto(dst, at, part);
    SplicePrefix(before, at, part);
    assert dst[..at + |part|] == dst[..][..at + |part|] && before[..at] == old(dst[..at]);
  }

  /** The stretches gathered so far fit the final buffer, and all of them fill it. */
  lemma {:induction false} BytesBound(values: seq<byte>, s: nat, runs: seq<Run>, k: nat)
    requires k <= |runs| && forall j :: 0 <= j < |runs| ==> runs[j].start * s <= runs[j].End() * s <= |values|
    ensures |GatheredBytes(values, s, runs[..k])| == Total(runs[..k]) * s <= Total(runs) * s
    ensures k == |runs| ==> Total(runs[..k]) == Total(runs)
  {
    hide GatheredBytes, Total;
    if k == 0 {
      assert runs[..0] == [];
      BytesNone(values, s);
    } else {
      BytesBound(values, s, runs, k - 1);
      BytesMore(values, s, runs, k - 1);
      TotalMore(runs, k - 1);
      MulSum(runs[k - 1].start, runs[k - 1].len, s);
      MulSum(Total(runs[..k - 1]), runs[k - 1].len, s);
    }
    TotalPrefix(runs, k);
    MulSum(Total(runs[..k]), Total(runs) - Total(runs[..k]), s);
    assert k == |runs| ==> runs[..k] == runs;
  }

  lemma TotalMore(runs: seq<Run>, k: nat)
    requires k < |runs|
    ensures Total(runs[..k + 1]) == Total(runs[..k]) + runs[k].len
  {
    assert runs[..k + 1][..k] == runs[..k];
  }

  lemma BytesNone(values: seq<byte>, s: nat)
    ensures GatheredBytes(values, s, []) == [] && Total([]) == 0
  {
  }

  lemma BytesMore(values: seq<byte>, s: nat, runs: seq<Run>, k: nat)
    requires k < |runs| && forall j :: 0 <= j < |runs| ==> runs[j].start * s <= runs[j].End() * s <= |values|
    ensures GatheredBytes(values, s, runs[..k + 1]) == GatheredBytes(values, s, runs[..k]) + values[runs[k].start * s..runs[k].End() * s]
  {
    assert runs[..k + 1][..k] == runs[..k];
  }

  // ----- validity

  /** The gathered validity; a result without NULLs is dropped. */
  method GatherValidity(raw: Option<seq<byte>>, rows: nat, runs: seq<Run>) returns (out: Option<seq<byte>>)
    requires (raw.Some? ==> rows <= 8 * |raw.value|) && RunsFit(runs, rows)
    ensures out.Some? ==> |out.value| == ValiditySize(Total(runs)) && raw.Some? && Total(runs) <= 8 * |out.value|
    ensures AllBits(RawBits(out, Total(runs)), Total(runs)) == Gathered(AllBits(RawBits(raw, rows), rows), runs)
    ensures out.None? <==> forall i :: 0 <= i < Total(runs) ==> Gathered(AllBits(RawBits(raw, rows), rows), runs)[i]
  {
    hide Gathered, Total, Overwritten, BitsOf, CountTrue;
    ghost var all := AllBits(RawBits(raw, rows), rows);
    GatheredLength(all, runs);
    if raw.None? {
      GatheredSame(rows, runs);
      return None;
    }
    var total := 0;
    assert runs[..0] == [];
    TotalNone();
    for k := 0 to |runs|
      invariant total == Total(runs[..k])
    {
      TotalMore(runs, k);
      total := total + runs[k].len;
    }
    assert runs[..|runs|] == runs;
    var dst := new byte[ValiditySize(total)](_ => 0);
    var at := 0;
    GatheredNone(all);
    NoBits(dst[..]);
    for k := 0 to |runs|
      invariant at == Total(runs[..k]) <= total && dst.Length == ValiditySize(total)
      invariant RunsFit(runs[..k], rows) && BitsOf(dst[..], 0, at) == Gathered(all, runs[..k])
    {
      var r := runs[k];
      GatheredMore(all, runs, k);
      TotalPrefix(runs, k + 1);
      BitsRoom(dst.Length, total);
      ghost var before := dst[..];
      var was, now := CopyBits(dst, at, raw.value, r.start, r.len);
      PlacedBits(before, dst[..], at, BitsOf(raw.value, r.start, r.len));
      BitsOfPart(raw.value, rows, r.start, r.len);
      at := at + r.len;
    }
    BitsRoom(dst.Length, total);
    var ones := CountOnes(dst[..], 0, total);
    CountTrueFull(BitsOf(dst[..], 0, total));
    AllTrueIsSame(Gathered(all, runs));
    if ones == total { return None; }
    return Some(dst[..]);
  }

  lemma TotalNone()
    ensures Total([]) == 0
  {
  }

  lemma NoBits(b: seq<byte>)
    ensures BitsOf(b, 0, 0) == []
  {
  }

  lemma GatheredNone<T>(list: seq<T>)
    ensures Gathered(list, []) == []
  {
  }

  lemma AllTrueIsSame(b: seq<bool>)
    ensures (forall i :: 0 <= i < |b| ==> b[i]) <==> b == Same(true, |b|)
  {
  }

  lemma {:induction false} GatheredSame(rows: nat, runs: seq<Run>)
    requires RunsFit(runs, rows)
    ensures Gathered(Same(true, rows), runs) == Same(true, Total(runs))
  {
    if runs != [] {
      assert runs[|runs| - 1].End() <= rows;
      GatheredSame(rows, runs[..|runs| - 1]);
    }
  }

  // ----- dictionaries

  /** Strings laid end to end; string `k` lies between offsets `k` and `k + 1`. */
  datatype Dict = Dict(offsets: seq<nat>, strings: seq<byte>) {
    predicate Valid() {
      && offsets != [] && offsets[0] == 0 && offsets[|offsets| - 1] <= |strings|
      && forall i, j :: 0 <= i <= j < |offsets| ==> offsets[i] <= offsets[j]
    }

    predicate Tight() { Valid() && offsets[|offsets| - 1] == |strings| }

    function Count(): nat
      requires offsets != []
    {
      |offsets| - 1
    }

    function StringAt(k: nat): Str
      requires Valid() && k < Count()
    {
      strings[offsets[k]..offsets[k + 1]]
    }

    function Add(s: Str): Dict {
      Dict(offsets + [|strings| + |s|], strings + s)
    }
  }

  lemma AddString(d: Dict, s: Str)
    requires d.Tight()
    ensures d.Add(s).Tight() && d.Add(s).Count() == d.Count() + 1
    ensures d.Add(s).StringAt(d.Count()) == s
    ensures forall k :: 0 <= k < d.Count() ==> d.Add(s).StringAt(k) == d.StringAt(k)
  {
    var e := d.Add(s);
    forall k | 0 <= k < d.Count()
      ensures e.StringAt(k) == d.StringAt(k)
    {
      assert d.offsets[k + 1] <= d.offsets[|d.offsets| - 1];
    }
  }

  /** The distinct elements of a list, in order of first appearance. */
  function FirstSeen<T(==, !new)>(list: seq<T>): (r: seq<T>)
    ensures forall x :: x in r <==> x in list
  {
    if list == [] then [] else
      var before, x := FirstSeen(list[..|list| - 1]), list[|list| - 1];
      assert list == list[..|list| - 1] + [x];
      if x in before then before else before + [x]
  }

  lemma {:induction false} FirstSeenDistinct<T(!new)>(list: seq<T>)
    ensures forall i, j :: 0 <= i < j < |FirstSeen(list)| ==> FirstSeen(list)[i] != FirstSeen(list)[j]
  {
    if list != [] { FirstSeenDistinct(list[..|list| - 1]); }
  }

  lemma FirstSeenMore<T(!new)>(list: seq<T>, x: T)
    ensures FirstSeen(list + [x]) == if x in FirstSeen(list) then FirstSeen(list) else FirstSeen(list) + [x]
  {
    assert (list + [x])[..|list|] == list;
  }

  /** A small dictionary over the old ids `seen`: new id `i` is old id `seen[i]`. */
  ghost predicate Rebuilt(old_: Dict, seen: seq<nat>, d: Dict)
    requires old_.Valid()
  {
    && d.Tight() && d.Count() == |seen|
    && forall i :: 0 <= i < |seen| ==> seen[i] < old_.Count() && d.StringAt(i) == old_.StringAt(seen[i])
  }

  /** New keys point at the places of the old ones. */
  ghost predicate Rekeyed(seen: seq<nat>, list: seq<nat>, keys: seq<nat>) {
    |keys| == |list| && forall i :: 0 <= i < |list| ==> keys[i] < |seen| && seen[keys[i]] == list[i]
  }

  /** Each gathered row's new key names the string its old key named. */
  ghost predicate SameStrings(old_: Dict, list: seq<nat>, d: Dict, keys: seq<nat>)
    requires old_.Valid()
  {
    && d.Tight() && |keys| == |list|
    && forall i :: 0 <= i < |list| ==> keys[i] < d.Count() && list[i] < old_.Count() && d.StringAt(keys[i]) == old_.StringAt(list[i])
  }

  lemma StringsKept(old_: Dict, seen: seq<nat>, list: seq<nat>, d: Dict, keys: seq<nat>)
    requires old_.Valid() && Rebuilt(old_, seen, d) && Rekeyed(seen, list, keys)
    ensures SameStrings(old_, list, d, keys)
  {
    hide Dict.StringAt;
  }

  const U32_MAX: nat := 0xFFFF_FFFF

  /** The table from old ids to new ones, the largest `u32` standing for "not yet". */
  ghost predicate Remaps(remap: seq<nat>, seen: seq<nat>) {
    forall k :: 0 <= k < |remap| ==>
      if remap[k] == U32_MAX then k !in seen else remap[k] < |seen| && seen[remap[k]] == k
  }

  /** Strings are copied the first time their id is met; later rows are table lookups, and
      a repeat of the last id not even that. */
  method GatherDict(keys: seq<nat>, d: Dict, runs: seq<Run>) returns (newKeys: seq<nat>, out: Dict)
    requires d.Valid() && d.Count() < U32_MAX && RunsFit(runs, |keys|)
    requires forall i :: 0 <= i < |keys| ==> keys[i] < d.Count()
    ensures Rebuilt(d, FirstSeen(Gathered(keys, runs)), out)
    ensures Rekeyed(FirstSeen(Gathered(keys, runs)), Gathered(keys, runs), newKeys)
    ensures SameStrings(d, Gathered(keys, runs), out, newKeys)
  {
    hide Gathered, FirstSeen, Dict.Valid, Dict.Tight, Dict.StringAt;
    var remap: seq<nat> := seq(d.Count(), _ => U32_MAX);
    newKeys, out := [], Dict([0], []);
    var lastKey, lastId := U32_MAX, 0;
    ghost var list: seq<nat> := [];
    GatherStart(keys, d, remap);
    assert runs[..0] == [];
    GatheredNone(keys);
    for k := 0 to |runs|
      invariant RunsFit(runs[..k], |keys|) && list == Gathered(keys, runs[..k])
      invariant lastKey >= 0 && lastId >= 0 && |remap| == d.Count()
      invariant Progress(d, list, newKeys, out, remap, lastKey, lastId)
    {
      var r := runs[k];
      GatheredMore(keys, runs, k);
      assert list + keys[r.start..r.start] == list;
      for i := r.start to r.End()
        invariant list == Gathered(keys, runs[..k]) + keys[r.start..i]
        invariant lastKey >= 0 && lastId >= 0 && |remap| == d.Count()
        invariant Progress(d, list, newKeys, out, remap, lastKey, lastId)
      {
        var key := keys[i];
        assert keys[r.start..i + 1] == keys[r.start..i] + [key];
        GatherStep(d, list, newKeys, out, remap, lastKey, lastId, key);
        var id;
        if key == lastKey {
          id := lastId;
        } else if remap[key] == U32_MAX {
          id := out.Count();
          out := out.Add(d.StringAt(key));
          remap := remap[key := id];
        } else {
          id := remap[key];
        }
        lastKey, lastId := key, id;
        newKeys := newKeys + [id];
        list := list + [key];
      }
    }
    assert runs[..|runs|] == runs;
    StringsKept(d, FirstSeen(Gathered(keys, runs)), Gathered(keys, runs), out, newKeys);
  }

  /** The state between two rows. */
  ghost predicate Progress(d: Dict, list: seq<nat>, keys: seq<nat>, out: Dict, remap: seq<nat>, lastKey: nat, lastId: nat)
    requires d.Valid()
  {
    var seen := FirstSeen(list);
    && Rebuilt(d, seen, out) && Rekeyed(seen, list, keys)
    && |remap| == d.Count() && Remaps(remap, seen) && |seen| <= d.Count()
    && (lastKey != U32_MAX ==> lastId < |seen| && seen[lastId] == lastKey)
    && out.offsets != []
  }

  lemma GatherStart(keys: seq<nat>, d: Dict, remap: seq<nat>)
    requires d.Valid() && remap == seq(d.Count(), _ => U32_MAX)
    ensures Progress(d, [], [], Dict([0], []), remap, U32_MAX, 0)
  {
  }

  lemma GatherStep(d: Dict, list: seq<nat>, keys: seq<nat>, out: Dict, remap: seq<nat>, lastKey: nat, lastId: nat, key: nat)
    requires d.Valid() && d.Count() < U32_MAX && key < d.Count() && Progress(d, list, keys, out, remap, lastKey, lastId)
    ensures if key == lastKey then Progress(d, list + [key], keys + [lastId], out, remap, key, lastId)
            else if remap[key] == U32_MAX then
              Progress(d, list + [key], keys + [out.Count()], out.Add(d.StringAt(key)), remap[key := out.Count()], key, out.Count())
            else Progress(d, list + [key], keys + [remap[key]], out, remap, key, remap[key])
  {
    hide FirstSeen, Dict.StringAt, Dict.Add, Progress, Rebuilt, Rekeyed, Remaps;
    ProgressParts(d, list, keys, out, remap, lastKey, lastId);
    if key == lastKey { GatherKnown(d, list, keys, out, remap, lastKey, lastId, key, lastId); }
    else if remap[key] == U32_MAX { GatherNew(d, list, keys, out, remap, lastKey, lastId, key); }
    else { GatherKnown(d, list, keys, out, remap, lastKey, lastId, key, remap[key]); }
  }

  lemma ProgressParts(d: Dict, list: seq<nat>, keys: seq<nat>, out: Dict, remap: seq<nat>, lastKey: nat, lastId: nat)
    requires d.Valid() && Progress(d, list, keys, out, remap, lastKey, lastId)
    ensures |remap| == d.Count() && out.offsets != []
    ensures lastKey != U32_MAX ==> lastId < |FirstSeen(list)| && FirstSeen(list)[lastId] == lastKey
    ensures forall k :: 0 <= k < |remap| && remap[k] != U32_MAX ==> remap[k] < |FirstSeen(list)| && FirstSeen(list)[remap[k]] == k
  {
    hide FirstSeen, Dict.StringAt, Dict.Add, Rebuilt, Rekeyed;
  }

  /** A key met before keeps its new id. */
  lemma GatherKnown(d: Dict, list: seq<nat>, keys: seq<nat>, out: Dict, remap: seq<nat>, lastKey: nat, lastId: nat, key: nat, id: nat)
    requires d.Valid() && Progress(d, list, keys, out, remap, lastKey, lastId)
    requires id < |FirstSeen(list)| && FirstSeen(list)[id] == key
    ensures Progress(d, list + [key], keys + [id], out, remap, key, id)
  {
    hide FirstSeen, Dict.StringAt, Dict.Add, Rebuilt;
    FirstSeenMore(list, key);
  }

  /** A key met for the first time gets the next id and its string. */
  lemma GatherNew(d: Dict, list: seq<nat>, keys: seq<nat>, out: Dict, remap: seq<nat>, lastKey: nat, lastId: nat, key: nat)
    requires d.Valid() && d.Count() < U32_MAX && key < d.Count() && Progress(d, list, keys, out, remap, lastKey, lastId)
    requires |remap| == d.Count() && remap[key] == U32_MAX && out.offsets != []
    ensures Progress(d, list + [key], keys + [out.Count()], out.Add(d.StringAt(key)), remap[key := out.Count()], key, out.Count())
  {
    hide FirstSeen, Dict.StringAt, Dict.Add;
    FirstSeenMore(list, key);
    AddString(out, d.StringAt(key));
    FirstSeenDistinct(list + [key]);
    DistinctFit(FirstSeen(list) + [key], d.Count());
  }
}
