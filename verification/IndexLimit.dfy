/** What a limit does to an index scan: when the result is the first rows wanted, and two
    scans where it is not. */
module IndexLimit {
  import opened Formats
  import opened Meta
  import opened MetaScan
  import opened MetaScanner
  import opened Order
  import opened Predicates
  import opened Ranges

  /** The wanted rows among the first `n`, in order. */
  ghost function WantedUpTo(idx: Index, acc: Acc, ranges: seq<RowRange>, n: nat): seq<nat>
    requires idx.Valid()
  {
    if n == 0 then [] else WantedUpTo(idx, acc, ranges, n - 1) + (if Wanted(idx, acc, ranges, n - 1) then [n - 1] else [])
  }

  ghost function WantedRows(idx: Index, pred: Option<Predicate>, ranges: seq<RowRange>): seq<nat>
    requires idx.Valid()
  {
    WantedUpTo(idx, Condition(idx, pred), ranges, idx.RowCount())
  }

  lemma {:induction false} WantedList(idx: Index, acc: Acc, ranges: seq<RowRange>, n: nat)
    requires idx.Valid()
    ensures Increasing(WantedUpTo(idx, acc, ranges, n))
    ensures forall row: nat :: row in WantedUpTo(idx, acc, ranges, n) <==> row < n && Wanted(idx, acc, ranges, row)
  {
    hide Wanted;
    if n > 0 {
      WantedList(idx, acc, ranges, n - 1);
      var before := WantedUpTo(idx, acc, ranges, n - 1);
      forall i | 0 <= i < |before| ensures before[i] < n - 1 { assert before[i] in before; }
    }
  }

  /** The walk over the symbols, stopped by the limit, came past the row. */
  ghost predicate Counted(idx: Index, acc: Acc, limit: nat, row: nat)
    requires IdsExist(idx, IdList(idx, acc))
  {
    Covers(Shares(idx, IdList(idx, acc), acc.lo, acc.hi, Some(limit), 0), row)
  }

  /** The first wanted rows all lie in the part of the grid the stopped walk came past. */
  ghost predicate CountedEnough(idx: Index, pred: Option<Predicate>, ranges: seq<RowRange>, limit: nat)
    requires idx.Valid() && IdsExist(idx, IdList(idx, Condition(idx, pred)))
  {
    forall row | row in Take(WantedRows(idx, pred, ranges), Some(limit)) :: Counted(idx, Condition(idx, pred), limit, row)
  }

  /** Leading parts of a list and of a longer one agree exactly when the longer one's
      leading part is in the shorter list. */
  lemma {:induction false} SameLead(r: seq<nat>, w: seq<nat>, limit: nat)
    requires Increasing(r) && Increasing(w) && forall x :: x in r ==> x in w
    ensures Take(r, Some(limit)) == Take(w, Some(limit)) <==> forall x | x in Take(w, Some(limit)) :: x in r
    decreases |w|
  {
    hide Take;
    TakeOne(r, limit);
    TakeOne(w, limit);
    NothingBelow(r, w);
    if w != [] && limit > 0 {
      var tail := Take(w[1..], Some(limit - 1));
      assert w == [w[0]] + w[1..];
      if r == [] {
        assert w[0] in Take(w, Some(limit));
      } else {
        assert r == [r[0]] + r[1..] && r[0] in r;
        LeadIn(r, w);
        if r[0] == w[0] {
          SameLead(r[1..], w[1..], limit - 1);
          TakeOne(w[1..], limit - 1);
          forall x | x in tail ensures x in r <==> x in r[1..] { assert x in w[1..]; }
        } else {
          assert w[0] in Take(w, Some(limit)) && w[0] !in r;
        }
      }
    }
  }

  lemma NothingBelow(r: seq<nat>, w: seq<nat>)
    requires forall x :: x in r ==> x in w
    ensures w == [] ==> r == []
  {
    if r != [] { assert r[0] in w; }
  }

  /** The first element, then the rest. */
  lemma TakeOne(s: seq<nat>, limit: nat)
    ensures limit == 0 || s == [] ==> Take(s, Some(limit)) == []
    ensures limit > 0 && s != [] ==> Take(s, Some(limit)) == [s[0]] + Take(s[1..], Some(limit - 1))
    ensures forall x :: x in Take(s, Some(limit)) ==> x in s
  {
  }

  /** The shorter list's first element is the longer one's, or comes after it. */
  lemma LeadIn(r: seq<nat>, w: seq<nat>)
    requires Increasing(r) && Increasing(w) && (forall x :: x in r ==> x in w) && r != [] && w != []
    ensures w[0] <= r[0] && (r[0] != w[0] ==> w[0] !in r)
    ensures forall x :: x in r[1..] ==> x in w[1..]
    ensures Increasing(r[1..]) && Increasing(w[1..]) && w[0] !in w[1..]
  {
    assert r[0] in w && w == [w[0]] + w[1..] && r == [r[0]] + r[1..];
    forall x | x in r[1..]
      ensures x in w[1..]
    {
      assert x in r && x in w && x > r[0];
    }
  }

  /** A limited scan hands out the first `limit` rows wanted if and only if its walk came
      past all of them. */
  method ScanLimited(idx: Index, pred: Option<Predicate>, ranges: seq<RowRange>, limit: nat) returns (sc: IndexScanner)
    requires idx.Valid() && LexIncreasing(idx.names)
    ensures fresh(sc) && sc.Valid() && IdsExist(idx, IdList(idx, Condition(idx, pred)))
    ensures sc.Remaining() == Take(WantedRows(idx, pred, ranges), Some(limit)) <==> CountedEnough(idx, pred, ranges, limit)
    ensures ranges == [] && (pred.Some? ==> NoRepeats(pred.value)) ==> sc.Remaining() == Take(WantedRows(idx, pred, ranges), Some(limit))
  {
    hide Covers, Canonical, Shares, Compiled, IdList, Wanted, WantedUpTo, Take, RowsOf, Increasing;
    var out := ScanIndex(idx, pred, ranges, Some(limit));
    sc := new IndexScanner(out, Some(limit));
    LimitExact(idx, pred, ranges, limit, out);
    if ranges == [] && (pred.Some? ==> NoRepeats(pred.value)) {
      ConditionIncreases(idx, pred);
      WholeGridCounted(idx, pred, limit);
    }
  }

  lemma LimitExact(idx: Index, pred: Option<Predicate>, ranges: seq<RowRange>, limit: nat, out: seq<RowRange>)
    requires idx.Valid() && IdsExist(idx, IdList(idx, Condition(idx, pred))) && Canonical(out)
    requires forall row: nat :: Covers(out, row) <==> Counted(idx, Condition(idx, pred), limit, row) && (ranges == [] || Covers(ranges, row))
    ensures Take(RowsOf(out), Some(limit)) == Take(WantedRows(idx, pred, ranges), Some(limit)) <==> CountedEnough(idx, pred, ranges, limit)
  {
    hide Covers, Canonical, Compiled, IdList, Wanted, WantedUpTo, RowsOf, Increasing, Counted;
    var acc := Condition(idx, pred);
    var w, r := WantedRows(idx, pred, ranges), RowsOf(out);
    WantedList(idx, acc, ranges, idx.RowCount());
    CanonicalIncreases(out);
    forall row: nat
      ensures row in r <==> Counted(idx, acc, limit, row) && (ranges == [] || Covers(ranges, row))
      ensures Counted(idx, acc, limit, row) && (ranges == [] || Covers(ranges, row)) ==> row in w
      ensures row in w ==> (ranges == [] || Covers(ranges, row))
    {
      RowsOfMember(out, row);
      CountedWanted(idx, acc, ranges, limit, row);
    }
    SameLead(r, w, limit);
    forall x | x in Take(w, Some(limit)) ensures x in w { }
  }

  lemma CanonicalIncreases(rs: seq<RowRange>)
    requires Canonical(rs)
    ensures Increasing(RowsOf(rs))
  {
    RowsOfIncreasing(rs);
  }

  lemma CountedWanted(idx: Index, acc: Acc, ranges: seq<RowRange>, limit: nat, row: nat)
    requires idx.Valid() && IdsExist(idx, IdList(idx, acc))
    ensures Counted(idx, acc, limit, row) && (ranges == [] || Covers(ranges, row)) ==> row < idx.RowCount() && Wanted(idx, acc, ranges, row)
    ensures Wanted(idx, acc, ranges, row) ==> (ranges == [] || Covers(ranges, row))
  {
    hide Shares, Covers;
    var ids := IdList(idx, acc);
    var cut, all := Shares(idx, ids, acc.lo, acc.hi, Some(limit), 0), Shares(idx, ids, acc.lo, acc.hi, None, 0);
    SharesLimit(idx, ids, acc.lo, acc.hi, limit, 0);
    SharesFit(idx, ids, acc.lo, acc.hi, None, 0);
    RowsOfMember(cut, row);
    RowsOfMember(all, row);
    SharesWanted(idx, acc, ranges, row);
    if row in RowsOf(cut) { assert row in RowsOf(all); }
  }

  // ----- without ranges and without repeated symbols

  /** No `Or` names a symbol twice. */
  predicate NoRepeats(p: Predicate) {
    match p
    case And(cs) => forall c | c in cs :: NoRepeats(c)
    case Or(cs) => AllSymEq(cs) ==> forall i, j :: 0 <= i < j < |cs| ==> cs[i] != cs[j]
    case _ => true
  }

  lemma ConditionIncreases(idx: Index, pred: Option<Predicate>)
    requires pred.Some? ==> NoRepeats(pred.value)
    ensures Increasing(IdList(idx, Condition(idx, pred)))
  {
    hide Compiled;
    if pred.Some? { CompiledIncreases(idx, pred.value, Start(idx)); }
  }

  lemma {:induction false} CompiledIncreases(idx: Index, p: Predicate, acc: Acc)
    requires NoRepeats(p) && (acc.syms.Some? ==> Increasing(acc.syms.value))
    ensures Compiled(idx, p, acc).syms.Some? ==> Increasing(Compiled(idx, p, acc).syms.value)
    decreases p, 1
  {
    hide IdOf, Increasing;
    NoneIncreases();
    match p
    case And(cs) => CompiledAllIncreases(idx, cs, acc);
    case Or(cs) =>
      if AllSymEq(cs) {
        IdsDistinct(idx.names, cs);
        SortIdsIncreases(IdsOf(idx.names, cs));
        if acc.syms.Some? { SortDistinctSorts(acc.syms.value + SortIds(IdsOf(idx.names, cs))); }
      }
    case Cmp(Some(f), op, lit) =>
      if f == SYM && op == Eq && lit.StrLit? && IdOf(idx.names, lit.s).Some? {
        OneIncreases(IdOf(idx.names, lit.s).value);
        if acc.syms.Some? { RetainIncreases(acc.syms.value, IdOf(idx.names, lit.s).value); }
      }
    case _ =>
  }

  lemma {:induction false} CompiledAllIncreases(idx: Index, cs: seq<Predicate>, acc: Acc)
    requires (forall c | c in cs :: NoRepeats(c)) && (acc.syms.Some? ==> Increasing(acc.syms.value))
    ensures CompiledAll(idx, cs, acc).syms.Some? ==> Increasing(CompiledAll(idx, cs, acc).syms.value)
    decreases cs, 0
  {
    hide Increasing;
    if cs != [] {
      CompiledIncreases(idx, cs[0], acc);
      CompiledAllIncreases(idx, cs[1..], Compiled(idx, cs[0], acc));
    }
  }

  lemma NoneIncreases()
    ensures Increasing([])
  {
  }

  lemma OneIncreases(x: nat)
    ensures Increasing([x])
  {
  }

  lemma {:induction false} RetainIncreases(s: seq<nat>, id: nat)
    requires Increasing(s)
    ensures Increasing(Retain(s, id))
  {
    if s != [] {
      var n := |s| - 1;
      RetainIncreases(s[..n], id);
      RetainMembers(s[..n], id);
      var t := Retain(s[..n], id);
      forall i | 0 <= i < |t| ensures t[i] < s[n] { assert t[i] in t; }
    }
  }

  /** Different literals name different symbols. */
  lemma {:induction false} IdsDistinct(names: seq<Str>, cs: seq<Predicate>)
    requires AllSymEq(cs) && forall i, j :: 0 <= i < j < |cs| ==> cs[i] != cs[j]
    ensures forall i, j :: 0 <= i < j < |IdsOf(names, cs)| ==> IdsOf(names, cs)[i] != IdsOf(names, cs)[j]
    ensures forall x :: x in IdsOf(names, cs) ==> x < |names| && exists c | c in cs :: c.value.s == names[x]
  {
    if cs != [] {
      var n := |cs| - 1;
      assert cs[n] in cs && IsSymEq(cs[n]);
      IdsDistinct(names, cs[..n]);
      var before, id := IdsOf(names, cs[..n]), IdOf(names, cs[n].value.s);
      if id.Some? {
        assert names[id.value] == cs[n].value.s;
        forall i | 0 <= i < |before|
          ensures before[i] != id.value
        {
          assert before[i] in before;
          var c :| c in cs[..n] && c.value.s == names[before[i]];
          var k :| 0 <= k < n && cs[k] == c;
          assert IsSymEq(cs[k]) && cs[k] != cs[n];
        }
      }
      forall x | x in IdsOf(names, cs)
        ensures x < |names| && exists c | c in cs :: c.value.s == names[x]
      {
        if x in before {
          var c :| c in cs[..n] && c.value.s == names[x];
          assert c in cs;
        }
      }
    }
  }

  lemma {:induction false} SortIdsIncreases(s: seq<nat>)
    requires forall i, j :: 0 <= i < j < |s| ==> s[i] != s[j]
    ensures Increasing(SortIds(s))
  {
    if s != [] {
      var n := |s| - 1;
      SortIdsIncreases(s[..n]);
      SortIdsMembers(s[..n]);
      InsertIdIncreases(s[n], SortIds(s[..n]));
    }
  }

  lemma {:induction false} InsertIdIncreases(x: nat, s: seq<nat>)
    requires Increasing(s) && x !in s
    ensures Increasing(InsertId(x, s))
  {
    if s != [] && x > s[0] {
      InsertIdIncreases(x, s[1..]);
      InsertIdMembers(x, s[1..]);
      var t := InsertId(x, s[1..]);
      forall j | 0 <= j < |t|
        ensures s[0] < t[j]
      {
        assert t[j] in t;
      }
    }
  }

  /** Symbols in order give rows in order. */
  lemma {:induction false} SharesRise(idx: Index, ids: seq<nat>, lo: nat, hi: nat, produced: nat)
    requires idx.Valid() && IdsExist(idx, ids) && Increasing(ids)
    ensures Increasing(RowsOf(Shares(idx, ids, lo, hi, None, produced)))
    ensures forall row | row in RowsOf(Shares(idx, ids, lo, hi, None, produced)) :: ids != [] && row >= idx.recs[ids[0]].rowStart
  {
    hide Share, RowsOf;
    if ids == [] {
      RowsOfEmpty();
    } else {
      var rec := idx.recs[ids[0]];
      var s := Share(rec, lo, hi);
      var p := produced + (if s == [] then 0 else s[0].length);
      var rest := Shares(idx, ids[1..], lo, hi, None, p);
      SharesRise(idx, ids[1..], lo, hi, p);
      RowsOfAppend(s, rest);
      ShareRows(rec, lo, hi);
      if |ids| > 1 { BlocksOrdered(idx, ids[0], ids[1]); }
      var a, b := RowsOf(s), RowsOf(rest);
      forall i, j | 0 <= i < |a| && 0 <= j < |b|
        ensures a[i] < b[j]
      {
        assert a[i] in a && b[j] in b;
      }
    }
  }

  lemma ShareRows(rec: SymRecord, lo: nat, hi: nat)
    ensures Increasing(RowsOf(Share(rec, lo, hi)))
    ensures forall row | row in RowsOf(Share(rec, lo, hi)) :: rec.rowStart <= row < rec.RowEnd()
  {
    hide Share;
    var s := Share(rec, lo, hi);
    RowsOfIncreasing(s);
    forall row | row in RowsOf(s) ensures rec.rowStart <= row < rec.RowEnd() { RowsOfMember(s, row); }
  }

  /** Over the whole grid and with every symbol listed once, the walk always comes far enough. */
  lemma WholeGridCounted(idx: Index, pred: Option<Predicate>, limit: nat)
    requires idx.Valid() && IdsExist(idx, IdList(idx, Condition(idx, pred))) && Increasing(IdList(idx, Condition(idx, pred)))
    ensures CountedEnough(idx, pred, [], limit)
  {
    hide Compiled, IdList, Shares, Wanted, WantedUpTo, RowsOf, Covers, Increasing;
    var acc := Condition(idx, pred);
    var ids := IdList(idx, acc);
    var cut, all := Shares(idx, ids, acc.lo, acc.hi, Some(limit), 0), Shares(idx, ids, acc.lo, acc.hi, None, 0);
    SharesLimit(idx, ids, acc.lo, acc.hi, limit, 0);
    SharesRise(idx, ids, acc.lo, acc.hi, 0);
    SharesFit(idx, ids, acc.lo, acc.hi, None, 0);
    WantedList(idx, acc, [], idx.RowCount());
    forall row: nat
      ensures row in RowsOf(all) <==> row in WantedRows(idx, pred, [])
      ensures row in RowsOf(cut) <==> Counted(idx, acc, limit, row)
    {
      RowsOfMember(all, row);
      RowsOfMember(cut, row);
      SharesWanted(idx, acc, [], row);
    }
    IncreasingUnique(RowsOf(all), WantedRows(idx, pred, []));
  }

  // ----- two scans that miss a wanted row

  /** Asking for one row among rows [1, 2): the walk stops after the first symbol. */
  lemma RangesMissed()
    ensures TWO_SYMS.Valid() && IdsExist(TWO_SYMS, IdList(TWO_SYMS, Condition(TWO_SYMS, None)))
    ensures !CountedEnough(TWO_SYMS, None, [RowRange(1, 1)], 1)
  {
    hide Index.Valid, LexIncreasing, Wanted, Shares, WantedUpTo, Increasing;
    LimitBeforeRanges();
    assert IdList(TWO_SYMS, Condition(TWO_SYMS, None)) == [0, 1];
    OutsideNotWanted();
    FirstWanted(TWO_SYMS, None, [RowRange(1, 1)], 1);
  }

  lemma OutsideNotWanted()
    requires TWO_SYMS.Valid()
    ensures !Wanted(TWO_SYMS, Condition(TWO_SYMS, None), [RowRange(1, 1)], 0)
  {
  }

  /** A row that is the only one wanted up to itself leads the list. */
  lemma FirstWanted(idx: Index, pred: Option<Predicate>, ranges: seq<RowRange>, row: nat)
    requires idx.Valid() && row < idx.RowCount() && Wanted(idx, Condition(idx, pred), ranges, row)
    requires forall r: nat | r < row :: !Wanted(idx, Condition(idx, pred), ranges, r)
    ensures row in Take(WantedRows(idx, pred, ranges), Some(1))
  {
    hide Wanted, Compiled, WantedUpTo;
    var w := WantedRows(idx, pred, ranges);
    WantedList(idx, Condition(idx, pred), ranges, idx.RowCount());
    var k :| 0 <= k < |w| && w[k] == row;
    assert w[0] in w;
    NotBefore(w, k);
  }

  lemma NotBefore(w: seq<nat>, k: nat)
    requires Increasing(w) && k < |w|
    ensures w[0] <= w[k]
  {
  }

  /** One symbol named twice and another once, two rows asked for over the whole grid: the
      first symbol's row is counted twice and the second symbol is never reached. */
  const TWICE: Predicate := Or([Cmp(Some(SYM), Eq, StrLit([65])), Cmp(Some(SYM), Eq, StrLit([65])), Cmp(Some(SYM), Eq, StrLit([66]))])

  lemma TwiceCompiled()
    ensures Condition(TWO_SYMS, Some(TWICE)) == Acc(Some([0, 0, 1]), 0, 1)
  {
    var cs := TWICE.children;
    assert NameIndex([[65], [66]], [65]) == 0;
    assert [[65], [66]][1..] == [[66]] && NameIndex([[66]], [66]) == 0;
    assert NameIndex([[65], [66]], [66]) == 1;
    assert AllSymEq(cs) && cs[..0] == [] && cs[..1][..0] == [] && cs[..2][..1] == cs[..1];
    assert IdsOf(TWO_SYMS.names, cs[..0]) == [];
    assert IdsOf(TWO_SYMS.names, cs[..1]) == [0];
    assert IdsOf(TWO_SYMS.names, cs[..2]) == [0, 0];
    assert IdsOf(TWO_SYMS.names, cs) == [0, 0, 1];
    SortedTwice();
  }

  lemma SortedTwice()
    ensures SortIds([0, 0, 1]) == [0, 0, 1]
  {
    assert [0, 0, 1][..2] == [0, 0] && [0, 0][..1] == [0] && [0][..0] == [];
    assert SortIds([]) == [] && SortIds([0]) == [0] && SortIds([0, 0]) == [0, 0];
    assert [0, 0][1..] == [0] && [0][1..] == [];
    assert InsertId(1, []) == [1] && InsertId(1, [0]) == [0, 1];
    assert InsertId(1, [0, 0]) == [0, 0, 1];
  }

  lemma TwiceWalked()
    ensures IdsExist(TWO_SYMS, [0, 0, 1]) && !Covers(Shares(TWO_SYMS, [0, 0, 1], 0, 1, Some(2), 0), 1)
  {
    hide Shares, Covers, Share;
    var ids := [0, 0, 1];
    FirstShare();
    SharesStep(TWO_SYMS, ids, 0, 0, 1, Some(2), 0);
    SharesStep(TWO_SYMS, ids, 1, 0, 1, Some(2), 1);
    SharesStep(TWO_SYMS, ids, 2, 0, 1, Some(2), 2);
    assert ids[0..] == ids;
    assert Shares(TWO_SYMS, ids, 0, 1, Some(2), 0) == [RowRange(0, 1), RowRange(0, 1)];
    OnlyRowZero();
  }

  lemma FirstShare()
    ensures Share(TWO_SYMS.recs[0], 0, 1) == [RowRange(0, 1)]
  {
  }

  lemma OnlyRowZero()
    ensures !Covers([RowRange(0, 1), RowRange(0, 1)], 1)
  {
  }

  lemma RepeatsMissed()
    ensures TWO_SYMS.Valid() && IdsExist(TWO_SYMS, IdList(TWO_SYMS, Condition(TWO_SYMS, Some(TWICE))))
    ensures !NoRepeats(TWICE) && !CountedEnough(TWO_SYMS, Some(TWICE), [], 2)
  {
    hide Index.Valid, LexIncreasing, Shares, WantedUpTo, Increasing, Compiled;
    TwoSymsValid();
    TwiceCompiled();
    TwiceWalked();
    var acc := Condition(TWO_SYMS, Some(TWICE));
    assert Owns(TWO_SYMS, 1, 0, 1) && acc.Selects(1, 0);
    WantedList(TWO_SYMS, acc, [], TWO_SYMS.RowCount());
    ShortList(WantedRows(TWO_SYMS, Some(TWICE), []), 2);
    assert 1 in Take(WantedRows(TWO_SYMS, Some(TWICE), []), Some(2));
    assert TWICE.children[0] == TWICE.children[1];
  }

  lemma ShortList(w: seq<nat>, n: nat)
    requires Increasing(w) && forall x :: x in w ==> x < n
    ensures |w| <= n
  {
    forall i | 0 <= i < |w| ensures w[i] < n { assert w[i] in w; }
    DistinctFit(w, n);
  }
}
