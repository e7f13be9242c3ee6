/** Turning an incoming string column into keys and a dictionary. */
module DictColumn {
  import opened Formats
  import opened Gather
  import opened Order

  /** A column that already is a dictionary: its strings laid end to end, its keys kept,
      0 for NULL. */
  method FromDictionary(values: seq<Str>, keys: seq<Option<nat>>) returns (out: Dict, newKeys: seq<nat>)
    ensures out.Tight() && out.Count() == |values| && forall k :: 0 <= k < |values| ==> out.StringAt(k) == values[k]
    ensures |newKeys| == |keys| && forall i :: 0 <= i < |keys| ==> newKeys[i] == if keys[i].Some? then keys[i].value else 0
  {
    hide Dict.StringAt, Dict.Add;
    out := Dict([0], []);
    EmptyDict();
    for i := 0 to |values|
      invariant out.Tight() && out.offsets != [] && out.Count() == i
      invariant forall k :: 0 <= k < i ==> out.StringAt(k) == values[k]
    {
      AddString(out, values[i]);
      out := out.Add(values[i]);
    }
    newKeys := seq(|keys|, i requires 0 <= i < |keys| => if keys[i].Some? then keys[i].value else 0);
  }

  lemma EmptyDict()
    ensures Dict([0], []).Tight() && Dict([0], []).Count() == 0
  {
  }

  /** The strings of the rows that are not NULL. */
  function Present(rows: seq<Option<Str>>): seq<Str> {
    if rows == [] then [] else
      var m := |rows| - 1;
      Present(rows[..m]) + (if rows[m].Some? then [rows[m].value] else [])
  }

  lemma PresentMore(rows: seq<Option<Str>>, i: nat)
    requires i < |rows|
    ensures Present(rows[..i + 1]) == Present(rows[..i]) + (if rows[i].Some? then [rows[i].value] else [])
  {
    assert rows[..i + 1][..i] == rows[..i];
  }

  /** The dictionary holds `seen` in order, and the map knows each string's place. */
  ghost predicate Known(seen: seq<Str>, d: Dict, ids: map<Str, nat>) {
    && d.Tight() && d.offsets != [] && d.Count() == |seen|
    && (forall j :: 0 <= j < |seen| ==> d.StringAt(j) == seen[j])
    && Numbered(seen, ids)
  }

  ghost predicate Numbered(seen: seq<Str>, ids: map<Str, nat>) {
    && (forall s :: s in ids <==> s in seen)
    && (forall s :: s in ids ==> ids[s] < |seen| && seen[ids[s]] == s)
    && |ids| == |seen|
  }

  lemma NumberedMore(seen: seq<Str>, ids: map<Str, nat>, s: Str)
    requires Numbered(seen, ids) && s !in ids
    ensures Numbered(seen + [s], ids[s := |ids|])
  {
    var next := ids[s := |ids|];
    assert next.Keys == ids.Keys + {s};
    assert |next| == |next.Keys| && |ids| == |ids.Keys|;
    forall x | x in next
      ensures next[x] < |seen| + 1 && (seen + [s])[next[x]] == x
    {
      if x != s { assert x in ids; }
    }
  }

  lemma KnownStart()
    ensures Known([], Dict([0], []), map[])
  {
    EmptyDict();
  }

  lemma KnownMore(seen: seq<Str>, d: Dict, ids: map<Str, nat>, s: Str)
    requires Known(seen, d, ids) && s !in ids
    ensures Known(seen + [s], d.Add(s), ids[s := |ids|])
  {
    hide Dict.Tight, Dict.StringAt, Dict.Add, Numbered;
    AddString(d, s);
    NumberedMore(seen, ids, s);
  }

  /** Every row's key names its string; NULL rows get key 0. */
  ghost predicate Keyed(rows: seq<Option<Str>>, seen: seq<Str>, keys: seq<nat>) {
    |keys| == |rows|
    && forall i :: 0 <= i < |rows| ==>
         if rows[i].Some? then keys[i] < |seen| && seen[keys[i]] == rows[i].value else keys[i] == 0
  }

  /** A plain string column: each distinct string is stored once, in order of first
      appearance; a string equal to the row before is not looked up again. */
  method FromStrings(rows: seq<Option<Str>>) returns (out: Dict, keys: seq<nat>)
    ensures out.Tight() && out.Count() == |FirstSeen(Present(rows))|
    ensures forall j :: 0 <= j < out.Count() ==> out.StringAt(j) == FirstSeen(Present(rows))[j]
    ensures Keyed(rows, FirstSeen(Present(rows)), keys)
  {
    hide FirstSeen, Present, Known;
    out, keys := Dict([0], []), [];
    var ids: map<Str, nat> := map[];
    var last: Option<Str>, lastId: nat := None, 0;
    ghost var seen: seq<Str> := [];
    KnownStart();
    NothingSeen();
    assert rows[..0] == [];
    for i := 0 to |rows|
      invariant seen == FirstSeen(Present(rows[..i])) && Known(seen, out, ids)
      invariant Keyed(rows[..i], seen, keys)
      invariant last.Some? ==> lastId < |seen| && seen[lastId] == last.value
    {
      PresentMore(rows, i);
      assert rows[..i + 1] == rows[..i] + [rows[i]];
      if rows[i].None? {
        assert Present(rows[..i]) + [] == Present(rows[..i]);
        keys, last := keys + [0], None;
      } else {
        var s := rows[i].value;
        FirstSeenMore(Present(rows[..i]), s);
        KnownIds(seen, out, ids, s);
        if last == Some(s) {
          keys := keys + [lastId];
        } else {
          var id: nat;
          if s in ids {
            id := ids[s];
          } else {
            id := |ids|;
            KnownMore(seen, out, ids, s);
            out := out.Add(s);
            ids := ids[s := id];
            seen := seen + [s];
          }
          last, lastId := Some(s), id;
          keys := keys + [id];
        }
      }
    }
    assert rows[..|rows|] == rows;
    KnownDict(seen, out, ids);
  }

  lemma NothingSeen()
    ensures FirstSeen(Present([])) == []
  {
  }

  lemma KnownIds(seen: seq<Str>, d: Dict, ids: map<Str, nat>, s: Str)
    requires Known(seen, d, ids)
    ensures s in ids <==> s in seen
    ensures s in ids ==> ids[s] < |seen| && seen[ids[s]] == s
    ensures |ids| == |seen|
  {
  }

  lemma KnownDict(seen: seq<Str>, d: Dict, ids: map<Str, nat>)
    requires Known(seen, d, ids)
    ensures d.Tight() && d.offsets != [] && d.Count() == |seen| && forall j :: 0 <= j < |seen| ==> d.StringAt(j) == seen[j]
  {
  }
}
