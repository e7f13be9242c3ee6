/** Partition names and their time bounds, and choosing the partitions a time window needs. */
module Partitions {
  import opened Bits
  import opened Calendar
  import opened Formats
  import opened Meta

  const US_PER_DAY := 86_400_000_000

  datatype Scheme = Unpartitioned | ByYear | ByMonth | ByDate

  /** A partition directory's name, parsed. */
  datatype Name = NoName | YearName(y: int) | MonthName(y: int, m: int) | DateName(y: int, m: int, d: int)

  /** `div_euclid` rounds down for negative times as well. */
  function ValueToDays(value: int, tt: TimeType): int {
    match tt case Date32 => value case TimestampUs => value / US_PER_DAY
  }

  function DaysToValue(days: int, tt: TimeType): int {
    match tt case Date32 => days case TimestampUs => days * US_PER_DAY
  }

  function PartitionName(scheme: Scheme, value: int, tt: TimeType): Name {
    var t := CivilFromDays(ValueToDays(value, tt));
    match scheme
    case Unpartitioned => NoName
    case ByYear => YearName(t.y)
    case ByMonth => MonthName(t.y, t.m)
    case ByDate => DateName(t.y, t.m, t.d)
  }

  /** A date at a time of day, in microseconds since the epoch. */
  function ClockValue(t: Date, h: int, m: int, s: int, us: int): int {
    (((DayNumber(t) * 24 + h) * 60 + m) * 60 + s) * 1_000_000 + us
  }

  predicate OwnNames(t: Date, value: int, tt: TimeType) {
    && PartitionName(Unpartitioned, value, tt) == NoName
    && PartitionName(ByYear, value, tt) == YearName(t.y)
    && PartitionName(ByMonth, value, tt) == MonthName(t.y, t.m)
    && PartitionName(ByDate, value, tt) == DateName(t.y, t.m, t.d)
  }

  /** Any time of a day has that day's partition names; as a day number, so has the day itself. */
  lemma ClockNames(t: Date, h: int, m: int, s: int, us: int)
    requires IsDate(t) && 0 <= h < 24 && 0 <= m < 60 && 0 <= s < 60 && 0 <= us < 1_000_000
    ensures OwnNames(t, ClockValue(t, h, m, s, us), TimeType.TimestampUs) && OwnNames(t, DayNumber(t), TimeType.Date32)
  {
    hide CivilFromDays, DaysFromCivil;
    DateRoundTrip(t);
    var rest := ((h * 60 + m) * 60 + s) * 1_000_000 + us;
    assert ClockValue(t, h, m, s, us) == DayNumber(t) * US_PER_DAY + rest;
    ModUnique(ClockValue(t, h, m, s, us), US_PER_DAY, DayNumber(t), rest);
  }

  /** The bounds in days; a month or date name is split at its first `-`, so a negative
      year there does not parse. */
  function DayRange(scheme: Scheme, n: Name): Option<(int, int)> {
    match (scheme, n)
    case (ByYear, YearName(y)) => Some((DaysFromCivil(y, 1, 1), DaysFromCivil(y + 1, 1, 1)))
    case (ByMonth, MonthName(y, m)) =>
      if y < 0 then None else
        var ny, nm := if m == 12 then y + 1 else y, if m == 12 then 1 else m + 1;
        Some((DaysFromCivil(y, m, 1), DaysFromCivil(ny, nm, 1)))
    case (ByDate, DateName(y, m, d)) =>
      if y < 0 then None else Some((DaysFromCivil(y, m, d), DaysFromCivil(y, m, d) + 1))
    case _ => None
  }

  function PartitionRange(scheme: Scheme, n: Name, tt: TimeType): Option<(int, int)> {
    match DayRange(scheme, n)
    case None => None
    case Some(r) => Some((DaysToValue(r.0, tt), DaysToValue(r.1, tt)))
  }

  /** The names `PartitionName` gives and `PartitionRange` reads back: years of either sign,
      months and dates from year 0 on. */
  predicate Proper(scheme: Scheme, n: Name) {
    match n
    case YearName(_) => scheme.ByYear?
    case MonthName(y, m) => scheme.ByMonth? && y >= 0 && 1 <= m <= 12
    case DateName(y, m, d) => scheme.ByDate? && y >= 0 && IsDate(Date(y, m, d))
    case NoName => false
  }

  /** The next name in time. */
  function NextName(n: Name): Name {
    match n
    case NoName => NoName
    case YearName(y) => YearName(y + 1)
    case MonthName(y, m) => if m == 12 then MonthName(y + 1, 1) else MonthName(y, m + 1)
    case DateName(y, m, d) =>
      if !IsDate(Date(y, m, d)) then n
      else var t := NextDay(Date(y, m, d)); DateName(t.y, t.m, t.d)
  }

  // ----- days and values

  lemma DayWindow(value: int, lo: int, hi: int, tt: TimeType)
    ensures DaysToValue(lo, tt) <= value < DaysToValue(hi, tt) <==> lo <= ValueToDays(value, tt) < hi
  {
    if tt.TimestampUs? {
      var q, r := value / US_PER_DAY, value % US_PER_DAY;
      assert value == q * US_PER_DAY + r && 0 <= r < US_PER_DAY;
      Floor(q, r, lo);
      Floor(q, r, hi);
    }
  }

  lemma Floor(q: int, r: int, b: int)
    requires 0 <= r < US_PER_DAY
    ensures b * US_PER_DAY <= q * US_PER_DAY + r <==> b <= q
  {
  }

  // ----- a range holds exactly its name's values

  /** A proper name's range is not empty, and it holds exactly the times given that name. */
  lemma RangeExact(scheme: Scheme, n: Name, value: int, tt: TimeType)
    requires Proper(scheme, n)
    ensures PartitionRange(scheme, n, tt).Some?
    ensures var r := PartitionRange(scheme, n, tt).value;
            r.0 < r.1 && (r.0 <= value < r.1 <==> PartitionName(scheme, value, tt) == n)
  {
    hide DaysFromCivil, CivilFromDays;
    var days := ValueToDays(value, tt);
    var t := CivilFromDays(days);
    DayRoundTrip(days);
    var r := DayRange(scheme, n).value;
    var a, b := FirstOf(n), PastOf(n);
    assert r.0 == DayNumber(a);
    if n.DateName? { CountsDays(a); }
    assert r.1 == DayNumber(b);
    DayOrder(a, b);
    DayOrder(t, a);
    DayOrder(t, b);
    DayWindow(value, r.0, r.1, tt);
    DayWindow(DaysToValue(r.0, tt), r.0, r.1, tt);
    DaysBack(r.0, tt);
    if n.DateName? { NextIsLeast(a, t); }
  }

  lemma DaysBack(days: int, tt: TimeType)
    ensures ValueToDays(DaysToValue(days, tt), tt) == days
  {
    if tt.TimestampUs? { ModUnique(days * US_PER_DAY, US_PER_DAY, days, 0); }
  }

  /** The first date of a name, and the first date past it. */
  function FirstOf(n: Name): Date {
    match n
    case NoName => Date(0, 1, 1)
    case YearName(y) => Date(y, 1, 1)
    case MonthName(y, m) => Date(y, m, 1)
    case DateName(y, m, d) => Date(y, m, d)
  }

  function PastOf(n: Name): Date {
    match n
    case NoName => Date(0, 1, 1)
    case YearName(y) => Date(y + 1, 1, 1)
    case MonthName(y, m) => if m == 12 then Date(y + 1, 1, 1) else Date(y, m + 1, 1)
    case DateName(y, m, d) => if IsDate(Date(y, m, d)) then NextDay(Date(y, m, d)) else Date(y, m, d)
  }

  /** No date lies strictly between a date and the next. */
  lemma NextIsLeast(a: Date, t: Date)
    requires IsDate(a) && IsDate(t)
    ensures !Earlier(t, a) && Earlier(t, NextDay(a)) <==> t == a
  {
  }

  /** The ranges tile time: each begins where the one before it ends. */
  lemma RangesTile(scheme: Scheme, n: Name, tt: TimeType)
    requires Proper(scheme, n)
    ensures Proper(scheme, NextName(n))
    ensures PartitionRange(scheme, n, tt).Some? && PartitionRange(scheme, NextName(n), tt).Some?
    ensures PartitionRange(scheme, n, tt).value.1 == PartitionRange(scheme, NextName(n), tt).value.0
  {
    hide DaysFromCivil, CivilFromDays;
    if n.DateName? { CountsDays(FirstOf(n)); }
  }

  /** A time's own name has a range if and only if the partitions are years or the time is
      not before year 0; the name is then proper. */
  lemma NamesParse(scheme: Scheme, value: int, tt: TimeType)
    requires !scheme.Unpartitioned?
    ensures Proper(scheme, PartitionName(scheme, value, tt)) <==> scheme.ByYear? || CivilFromDays(ValueToDays(value, tt)).y >= 0
    ensures PartitionRange(scheme, PartitionName(scheme, value, tt), tt).Some?
        <==> scheme.ByYear? || CivilFromDays(ValueToDays(value, tt)).y >= 0
  {
    hide CivilFromDays;
    DayRoundTrip(ValueToDays(value, tt));
  }

  /** The last day before year 0: its year partition has a range, its month and date
      partitions have none. */
  lemma BeforeYearZero()
    ensures PartitionName(ByYear, -719_529, TimeType.Date32) == YearName(-1) && PartitionRange(ByYear, YearName(-1), TimeType.Date32).Some?
    ensures PartitionName(ByMonth, -719_529, TimeType.Date32) == MonthName(-1, 12) && PartitionRange(ByMonth, MonthName(-1, 12), TimeType.Date32).None?
    ensures PartitionName(ByDate, -719_529, TimeType.Date32) == DateName(-1, 12, 31)
         && PartitionRange(ByDate, DateName(-1, 12, 31), TimeType.Date32).None?
  {
    hide CivilFromDays;
    DateRoundTrip(Date(-1, 12, 31));
    assert DayNumber(Date(-1, 12, 31)) == -719_529;
  }

  /** A timestamp partition of one date holds that day's 24 hours. */
  lemma DayOfClock(t: Date)
    requires IsDate(t) && t.y >= 0
    ensures PartitionRange(ByDate, DateName(t.y, t.m, t.d), TimeType.TimestampUs)
         == Some((ClockValue(t, 0, 0, 0, 0), ClockValue(t, 23, 59, 59, 999_999) + 1))
  {
    hide DaysFromCivil;
  }

  // ----- pruning

  datatype Info = Info(name: Name, lo: int, hi: int)

  predicate SortedInfos(s: seq<Info>) { forall i, j :: 0 <= i < j < |s| ==> s[i].lo <= s[j].lo }

  function InsertInfo(x: Info, s: seq<Info>): seq<Info> {
    if s == [] then [x] else if x.lo < s[0].lo then [x] + s else [s[0]] + InsertInfo(x, s[1..])
  }

  /** A stable sort by lower bound. */
  function SortInfos(s: seq<Info>): seq<Info> {
    if s == [] then [] else InsertInfo(s[|s| - 1], SortInfos(s[..|s| - 1]))
  }

  lemma {:induction false} InsertInfoMembers(x: Info, s: seq<Info>)
    ensures multiset(InsertInfo(x, s)) == multiset(s) + multiset{x}
  {
    if s != [] {
      assert s == [s[0]] + s[1..];
      if x.lo >= s[0].lo { InsertInfoMembers(x, s[1..]); }
    }
  }

  lemma {:induction false} InsertInfoSorted(x: Info, s: seq<Info>)
    requires SortedInfos(s)
    ensures SortedInfos(InsertInfo(x, s))
  {
    if s != [] && x.lo >= s[0].lo {
      InsertInfoSorted(x, s[1..]);
      InsertInfoMembers(x, s[1..]);
      var t := InsertInfo(x, s[1..]);
      forall j | 0 <= j < |t|
        ensures s[0].lo <= t[j].lo
      {
        assert t[j] in multiset(t);
        assert t[j] in multiset(s[1..]) || t[j] == x;
      }
    }
  }

  lemma {:induction false} SortInfosSorts(s: seq<Info>)
    ensures SortedInfos(SortInfos(s)) && multiset(SortInfos(s)) == multiset(s)
  {
    if s != [] {
      var m := |s| - 1;
      assert s == s[..m] + [s[m]];
      SortInfosSorts(s[..m]);
      InsertInfoMembers(s[m], SortInfos(s[..m]));
      InsertInfoSorted(s[m], SortInfos(s[..m]));
    }
  }

  /** Names are distinct, and every name with a range is proper. */
  ghost predicate Listing(scheme: Scheme, names: seq<Name>) {
    && (forall i, j :: 0 <= i < j < |names| ==> names[i] != names[j])
    && (forall n :: n in names && DayRange(scheme, n).Some? ==> Proper(scheme, n))
  }

  /** The bounds of every listed partition. */
  method Bounds(scheme: Scheme, names: seq<Name>, tt: TimeType) returns (r: Result<seq<Info>>)
    ensures r.Ok? <==> forall n :: n in names ==> PartitionRange(scheme, n, tt).Some?
    ensures r.Ok? ==> |r.value| == |names| && forall i :: 0 <= i < |names| ==>
                        r.value[i].name == names[i] && PartitionRange(scheme, names[i], tt) == Some((r.value[i].lo, r.value[i].hi))
  {
    hide PartitionRange;
    var infos: seq<Info> := [];
    for i := 0 to |names|
      invariant |infos| == i
      invariant forall k :: 0 <= k < i ==>
                  infos[k].name == names[k] && PartitionRange(scheme, names[k], tt) == Some((infos[k].lo, infos[k].hi))
    {
      var range := PartitionRange(scheme, names[i], tt);
      if range.None? { return Err(Invalid); }
      infos := infos + [Info(names[i], range.value.0, range.value.1)];
    }
    return Ok(infos);
  }

  /** Disjoint ranges in order. */
  ghost predicate InOrder(s: seq<Info>) {
    && (forall i :: 0 <= i < |s| ==> s[i].lo < s[i].hi)
    && (forall i, j :: 0 <= i < j < |s| ==> s[i].hi <= s[j].lo)
  }

  /** The first range that ends after `lo`, by bisection, and those that begin before `hi`. */
  method Window(infos: seq<Info>, lo: int, hi: int) returns (out: seq<Info>)
    requires InOrder(infos)
    ensures InOrder(out)
    ensures forall x :: x in out <==> x in infos && x.lo < hi && lo < x.hi
  {
    var a, b := 0, |infos|;
    while a < b
      invariant 0 <= a <= b <= |infos|
      invariant forall i :: 0 <= i < a ==> infos[i].hi <= lo
      invariant forall i :: b <= i < |infos| ==> infos[i].hi > lo
    {
      var mid := (a + b) / 2;
      InOrderEnds(infos, mid);
      if infos[mid].hi <= lo { a := mid + 1; } else { b := mid; }
    }
    var end := a;
    while end < |infos| && infos[end].lo < hi
      invariant a <= end <= |infos|
      invariant forall i :: a <= i < end ==> infos[i].lo < hi
    {
      end := end + 1;
    }
    out := infos[a..end];
    if end < |infos| { InOrderStarts(infos, end); }
    WindowSlice(infos, lo, hi, a, end);
  }

  lemma InOrderEnds(s: seq<Info>, m: nat)
    requires InOrder(s) && m < |s|
    ensures forall i :: 0 <= i <= m ==> s[i].hi <= s[m].hi
    ensures forall i :: m <= i < |s| ==> s[m].hi <= s[i].hi
  {
  }

  lemma InOrderStarts(s: seq<Info>, m: nat)
    requires InOrder(s) && m < |s|
    ensures forall i :: m <= i < |s| ==> s[m].lo <= s[i].lo
  {
  }

  lemma WindowSlice(s: seq<Info>, lo: int, hi: int, a: nat, end: nat)
    requires InOrder(s) && a <= end <= |s|
    requires forall i :: 0 <= i < a ==> s[i].hi <= lo
    requires forall i :: a <= i < end ==> s[i].hi > lo && s[i].lo < hi
    requires forall i :: end <= i < |s| ==> s[i].lo >= hi
    ensures InOrder(s[a..end]) && forall x :: x in s[a..end] <==> x in s && x.lo < hi && lo < x.hi
  {
    forall x
      ensures x in s[a..end] <==> x in s && x.lo < hi && lo < x.hi
    {
      if x in s && x.lo < hi && lo < x.hi {
        var i :| 0 <= i < |s| && s[i] == x;
        assert s[a..end][i - a] == x;
      }
    }
  }

  /** The partitions kept for a time window, in time order: for a window that is not empty
      they are exactly those whose range meets it. */
  method Prune(scheme: Scheme, names: seq<Name>, tt: TimeType, lo: int, hi: int) returns (r: Result<seq<Info>>)
    requires Listing(scheme, names)
    ensures r.Ok? <==> forall n :: n in names ==> PartitionRange(scheme, n, tt).Some?
    ensures r.Ok? ==> InOrder(r.value)
    ensures r.Ok? ==> forall x :: x in r.value ==> x.name in names && PartitionRange(scheme, x.name, tt) == Some((x.lo, x.hi))
    ensures r.Ok? ==> forall x :: x in r.value ==> x.lo < hi && lo < x.hi
    ensures r.Ok? ==> forall n :: n in names ==> KeptIf(r.value, scheme, n, tt, lo, hi)
  {
    hide PartitionRange, SortInfos;
    var infos := Bounds(scheme, names, tt);
    if infos.Err? { return infos; }
    var sorted := SortInfos(infos.value);
    SortInfosSorts(infos.value);
    SortedInOrder(scheme, names, tt, infos.value, sorted);
    var out := Window(sorted, lo, hi);
    SameMembers(infos.value, sorted);
    forall n | n in names
      ensures KeptIf(out, scheme, n, tt, lo, hi)
    {
      var i :| 0 <= i < |names| && names[i] == n;
      assert infos.value[i] in sorted;
    }
    return Ok(out);
  }

  /** A listed partition whose range meets the window is kept. */
  ghost predicate KeptIf(kept: seq<Info>, scheme: Scheme, n: Name, tt: TimeType, lo: int, hi: int) {
    && PartitionRange(scheme, n, tt).Some?
    && var range := PartitionRange(scheme, n, tt).value;
       (range.0 < hi && lo < range.1 ==> Info(n, range.0, range.1) in kept)
  }

  lemma SameMembers(a: seq<Info>, b: seq<Info>)
    requires multiset(a) == multiset(b)
    ensures forall x :: x in a <==> x in b
  {
    forall x ensures x in a <==> x in b { assert x in a <==> x in multiset(a); assert x in b <==> x in multiset(b); }
  }

  /** Distinct proper names have disjoint ranges, so sorting by lower bound puts them in order. */
  lemma SortedInOrder(scheme: Scheme, names: seq<Name>, tt: TimeType, infos: seq<Info>, sorted: seq<Info>)
    requires Listing(scheme, names) && |infos| == |names| && SortedInfos(sorted) && multiset(sorted) == multiset(infos)
    requires forall i :: 0 <= i < |names| ==>
               infos[i].name == names[i] && PartitionRange(scheme, names[i], tt) == Some((infos[i].lo, infos[i].hi))
    ensures InOrder(sorted)
  {
    hide PartitionRange;
    SameMembers(infos, sorted);
    forall x | x in sorted
      ensures x.name in names && PartitionRange(scheme, x.name, tt) == Some((x.lo, x.hi)) && x.lo < x.hi
    {
      InfoOf(scheme, names, tt, infos, x);
    }
    forall i, j | 0 <= i < j < |sorted|
      ensures sorted[i].hi <= sorted[j].lo
    {
      NamesDiffer(names, infos, sorted, i, j);
      InfoOf(scheme, names, tt, infos, sorted[i]);
      InfoOf(scheme, names, tt, infos, sorted[j]);
      RangeExact(scheme, sorted[i].name, sorted[j].lo, tt);
      RangeExact(scheme, sorted[j].name, sorted[j].lo, tt);
    }
  }

  lemma InfoOf(scheme: Scheme, names: seq<Name>, tt: TimeType, infos: seq<Info>, x: Info)
    requires Listing(scheme, names) && |infos| == |names| && x in infos
    requires forall i :: 0 <= i < |names| ==>
               infos[i].name == names[i] && PartitionRange(scheme, names[i], tt) == Some((infos[i].lo, infos[i].hi))
    ensures x.name in names && PartitionRange(scheme, x.name, tt) == Some((x.lo, x.hi))
    ensures Proper(scheme, x.name) && x.lo < x.hi
  {
    RangeExact(scheme, x.name, 0, tt);
  }

  lemma NamesDiffer(names: seq<Name>, infos: seq<Info>, sorted: seq<Info>, i: nat, j: nat)
    requires |infos| == |names| && (forall k :: 0 <= k < |names| ==> infos[k].name == names[k])
    requires forall a, b :: 0 <= a < b < |names| ==> names[a] != names[b]
    requires multiset(sorted) == multiset(infos) && i < j < |sorted|
    ensures sorted[i].name != sorted[j].name
  {
    SameMembers(infos, sorted);
    assert sorted[i] in sorted && sorted[j] in sorted;
    var a :| 0 <= a < |infos| && infos[a] == sorted[i];
    var b :| 0 <= b < |infos| && infos[b] == sorted[j];
    if a == b {
      Twice(sorted, i, j);
      Once(infos, a);
      assert false;
    }
  }

  lemma Twice(s: seq<Info>, i: nat, j: nat)
    requires i < j < |s| && s[i] == s[j]
    ensures multiset(s)[s[i]] >= 2
  {
    assert s == s[..j] + [s[j]] + s[j + 1..];
    assert s[..j][i] == s[i] && s[i] in s[..j];
  }

  lemma Once(s: seq<Info>, a: nat)
    requires a < |s| && forall i, j :: 0 <= i < j < |s| ==> s[i].name != s[j].name
    ensures multiset(s)[s[a]] == 1
  {
    assert s == s[..a] + [s[a]] + s[a + 1..];
    assert s[a] !in s[..a] && s[a] !in s[a + 1..];
    assert multiset(s[..a])[s[a]] == 0 && multiset(s[a + 1..])[s[a]] == 0;
  }

  predicate InBoth(x: Info, lo: int, hi: int, t: int) { x.lo <= t < x.hi && lo <= t < hi }

  /** A window that is not empty meets a range exactly when each begins before the other ends. */
  lemma Meets(x: Info, lo: int, hi: int)
    requires x.lo < x.hi && lo < hi
    ensures x.lo < hi && lo < x.hi <==> exists t :: InBoth(x, lo, hi, t)
  {
    assert x.lo < hi && lo < x.hi ==> InBoth(x, lo, hi, if x.lo > lo then x.lo else lo);
  }
}
