/** Civil dates and day numbers (day 0 is 1970-01-01), in the proleptic Gregorian calendar. */
module Calendar {
  import opened Bits

  datatype Date = Date(y: int, m: int, d: int)

  /** Division that truncates towards zero. */
  function TruncDiv(a: int, b: int): int
    requires b > 0
  {
    if a >= 0 then a / b else -((-a) / b)
  }

  function DaysFromCivil(y: int, m: int, d: int): int
  {
    var y1 := y - (if m <= 2 then 1 else 0);
    var era := TruncDiv(if y1 >= 0 then y1 else y1 - 399, 400);
    var yoe := y1 - era * 400;
    var mp := if m > 2 then m - 3 else m + 9;
    var doy := (153 * mp + 2) / 5 + d - 1;
    var doe := yoe * 365 + yoe / 4 - yoe / 100 + doy;
    era * 146_097 + doe - 719_468
  }

  function CivilFromDays(days: int): Date
  {
    var z := days + 719_468;
    var era := TruncDiv(if z >= 0 then z else z - 146_096, 146_097);
    var doe := z - era * 146_097;
    var yoe := YearOfEra(doe);
    var y := yoe + era * 400;
    var doy := doe - (365 * yoe + yoe / 4 - yoe / 100);
    var mp := (5 * doy + 2) / 153;
    var d := doy - (153 * mp + 2) / 5 + 1;
    var m := if mp < 10 then mp + 3 else mp - 9;
    Date(y + (if m <= 2 then 1 else 0), m, d)
  }

  function YearOfEra(doe: int): int {
    (doe - doe / 1460 + doe / 36_524 - doe / 146_096) / 365
  }

  // ----- the calendar itself

  predicate IsLeap(y: int) { y % 4 == 0 && (y % 100 != 0 || y % 400 == 0) }

  function DaysIn(y: int, m: int): int {
    if m == 2 then (if IsLeap(y) then 29 else 28)
    else if m == 4 || m == 6 || m == 9 || m == 11 then 30
    else 31
  }

  predicate IsDate(t: Date) { 1 <= t.m <= 12 && 1 <= t.d <= DaysIn(t.y, t.m) }

  function NextDay(t: Date): (n: Date)
    requires IsDate(t)
    ensures IsDate(n)
  {
    if t.d < DaysIn(t.y, t.m) then Date(t.y, t.m, t.d + 1)
    else if t.m < 12 then Date(t.y, t.m + 1, 1)
    else Date(t.y + 1, 1, 1)
  }

  predicate Earlier(a: Date, b: Date) {
    a.y < b.y || (a.y == b.y && (a.m < b.m || (a.m == b.m && a.d < b.d)))
  }

  function DayNumber(t: Date): int { DaysFromCivil(t.y, t.m, t.d) }

  // ----- eras, years and months counted from March

  /** The branch before a truncating division makes it round down. */
  lemma EraFloor(x: int, n: int)
    requires n > 0
    ensures TruncDiv(if x >= 0 then x else x - (n - 1), n) == x / n
  {
    if x < 0 {
      var q, r := x / n, x % n;
      assert x == q * n + r;
      assert -(x - (n - 1)) == -q * n + (n - 1 - r);
      ModUnique(-(x - (n - 1)), n, -q, n - 1 - r);
    }
  }

  function YearStart(yoe: int): int { 365 * yoe + yoe / 4 - yoe / 100 }

  /** A year from March to February; its last day is a leap day when the next civil year is leap. */
  function YearLength(yoe: int): int {
    if (yoe + 1) % 4 == 0 && ((yoe + 1) % 100 != 0 || yoe == 399) then 366 else 365
  }

  /** A year of the era by century, four-year block and year. */
  lemma YearParts(c: int, k: int, r: int)
    requires 0 <= c <= 3 && 0 <= k <= 24 && 0 <= r <= 3
    ensures var yoe := 100 * c + 4 * k + r;
            && yoe / 4 == 25 * c + k && yoe / 100 == c
            && YearStart(yoe) == 36_524 * c + 1461 * k + 365 * r
            && (YearLength(yoe) == 366 <==> r == 3 && (k < 24 || c == 3))
  {
  }

  /** Every day of a year computes that year. */
  lemma YearOfDay(c: int, k: int, r: int, doy: int)
    requires 0 <= c <= 3 && 0 <= k <= 24 && 0 <= r <= 3
    requires 0 <= doy < YearLength(100 * c + 4 * k + r)
    ensures YearOfEra(YearStart(100 * c + 4 * k + r) + doy) == 100 * c + 4 * k + r
  {
    YearParts(c, k, r);
    var yoe := 100 * c + 4 * k + r;
    var y := 365 * r + doy;
    var x := 1461 * k + y;
    var doe := 36_524 * c + x;
    var late := if 24 * c + k + y >= 1460 then 1 else 0;
    assert y <= 1460 && 24 * c + k <= 96;
    ModUnique(doe, 1460, 25 * c + k + late, 24 * c + k + y - 1460 * late);
    Centuries(c, k, y);
    ModUnique(365 * yoe + (doy - late), 365, yoe, doy - late);
  }

  /** The last day of the era would be a fifth century's first: two corrections cancel there. */
  lemma Centuries(c: int, k: int, y: int)
    requires 0 <= c <= 3 && 0 <= k <= 24 && 0 <= y <= 1460 && (k == 24 && y == 1460 ==> c == 3)
    ensures var doe := 36_524 * c + 1461 * k + y; doe / 36_524 - doe / 146_096 == c
  {
    var doe := 36_524 * c + 1461 * k + y;
    if k == 24 && y == 1460 {
      ModUnique(doe, 36_524, 4, 0);
      ModUnique(doe, 146_096, 1, 0);
    } else {
      ModUnique(doe, 36_524, c, 1461 * k + y);
      ModUnique(doe, 146_096, 0, doe);
    }
  }

  /** Every day of an era lies in the year it computes. */
  lemma DayHasYear(doe: int)
    requires 0 <= doe < 146_097
    ensures var yoe := YearOfEra(doe);
            0 <= yoe < 400 && 0 <= doe - YearStart(yoe) < YearLength(yoe)
  {
    var c := if doe / 36_524 > 3 then 3 else doe / 36_524;
    var x := doe - 36_524 * c;
    var k := x / 1461;
    var y := x - 1461 * k;
    var r := if y / 365 > 3 then 3 else y / 365;
    YearParts(c, k, r);
    YearOfDay(c, k, r, y - 365 * r);
  }

  function MonthStart(mp: int): int { (153 * mp + 2) / 5 }

  /** A day of the March year and its month, counted from March. */
  lemma MonthOfDay(doy: int, mp: int)
    requires 0 <= doy <= 365 && 0 <= mp <= 11
    ensures (5 * doy + 2) / 153 == mp <==> MonthStart(mp) <= doy && (mp == 11 || doy < MonthStart(mp + 1))
  {
  }

  function MarchMonth(m: int): int { if m > 2 then m - 3 else m + 9 }

  /** Month lengths in days, from March on; February takes what is left of the year. */
  lemma MonthLengths(y: int, m: int)
    requires 1 <= m <= 12
    ensures var y1 := y - (if m <= 2 then 1 else 0);
            var mp := MarchMonth(m);
            && 0 <= mp <= 11
            && DaysIn(y, m) == (if mp == 11 then YearLength(y1 % 400) else MonthStart(mp + 1)) - MonthStart(mp)
  {
    if m == 2 { February(y); }
  }

  lemma February(y: int)
    ensures (if IsLeap(y) then 29 else 28) == YearLength((y - 1) % 400) - MonthStart(11)
  {
    var q, r := (y - 1) / 400, (y - 1) % 400;
    assert y == r + 1 + 400 * q;
    ModShift(r + 1, 100 * q, 4);
    ModShift(r + 1, 4 * q, 100);
    ModShift(r + 1, q, 400);
  }

  // ----- dates and day numbers

  /** The March year of a date and the day within it. */
  function MarchYear(t: Date): int { t.y - (if t.m <= 2 then 1 else 0) }

  function DayOfYear(t: Date): int { MonthStart(MarchMonth(t.m)) + t.d - 1 }

  /** The first day number of a March year. */
  function FirstDay(y1: int): int { y1 / 400 * 146_097 + YearStart(y1 % 400) - 719_468 }

  lemma DayNumberIs(t: Date)
    requires IsDate(t)
    ensures DayNumber(t) == FirstDay(MarchYear(t)) + DayOfYear(t)
    ensures 0 <= DayOfYear(t) < YearLength(MarchYear(t) % 400)
    ensures MarchMonth(t.m) < 11 ==> DayOfYear(t) < MonthStart(MarchMonth(t.m) + 1)
  {
    hide YearLength, TruncDiv;
    EraFloor(MarchYear(t), 400);
    MonthLengths(t.y, t.m);
    LengthBounds(MarchYear(t) % 400);
  }

  lemma LengthBounds(yoe: int)
    ensures 365 <= YearLength(yoe) <= 366
  {
  }

  lemma YearInEra(yoe: int)
    requires 0 <= yoe < 400
    ensures var c, k, r := yoe / 100, yoe % 100 / 4, yoe % 4;
            0 <= c <= 3 && 0 <= k <= 24 && 0 <= r <= 3 && yoe == 100 * c + 4 * k + r
    ensures 0 <= YearStart(yoe) && YearStart(yoe) + YearLength(yoe) <= 146_097
    ensures yoe < 399 ==> YearStart(yoe + 1) == YearStart(yoe) + YearLength(yoe)
    ensures yoe == 399 ==> YearStart(yoe) + YearLength(yoe) == 146_097
  {
  }

  /** Splitting a day number gives the March year and the day within it. */
  lemma SplitDay(y1: int, doy: int)
    requires 0 <= doy < YearLength(y1 % 400)
    ensures var z := FirstDay(y1) + doy + 719_468;
            && TruncDiv(if z >= 0 then z else z - 146_096, 146_097) == y1 / 400
            && z - y1 / 400 * 146_097 == YearStart(y1 % 400) + doy
            && YearOfEra(YearStart(y1 % 400) + doy) == y1 % 400
  {
    hide TruncDiv, YearOfEra, YearLength;
    var yoe := y1 % 400;
    YearInEra(yoe);
    var z := FirstDay(y1) + doy + 719_468;
    EraFloor(z, 146_097);
    ModUnique(z, 146_097, y1 / 400, YearStart(yoe) + doy);
    YearOfDay(yoe / 100, yoe % 100 / 4, yoe % 4, doy);
  }

  /** Every date comes back from its day number. */
  lemma DateRoundTrip(t: Date)
    requires IsDate(t)
    ensures CivilFromDays(DayNumber(t)) == t
  {
    hide YearLength, TruncDiv, YearOfEra, FirstDay;
    DayNumberIs(t);
    SplitDay(MarchYear(t), DayOfYear(t));
    LengthBounds(MarchYear(t) % 400);
    MonthOfDay(DayOfYear(t), MarchMonth(t.m));
    assert MarchYear(t) % 400 + MarchYear(t) / 400 * 400 == MarchYear(t);
  }

  /** Every day number comes back from its date, which exists in the calendar. */
  lemma DayRoundTrip(days: int)
    ensures IsDate(CivilFromDays(days)) && DayNumber(CivilFromDays(days)) == days
  {
    hide YearLength, TruncDiv, YearOfEra, DaysIn, DaysFromCivil, CivilFromDays;
    var t, y1, doy := SplitDate(days);
    LengthBounds(y1 % 400);
    MonthOfDay(doy, MarchMonth(t.m));
    MonthLengths(t.y, t.m);
    DayNumberIs(t);
  }

  /** A day number's date by March year, day of that year and month. */
  lemma SplitDate(days: int) returns (t: Date, y1: int, doy: int)
    ensures t == CivilFromDays(days) && 1 <= t.m <= 12
    ensures MarchYear(t) == y1 && DayOfYear(t) == doy && MarchMonth(t.m) == (5 * doy + 2) / 153
    ensures 0 <= doy < YearLength(y1 % 400) && days == FirstDay(y1) + doy
  {
    hide YearLength, TruncDiv, YearOfEra;
    var z := days + 719_468;
    EraFloor(z, 146_097);
    var era, doe := z / 146_097, z % 146_097;
    DayHasYear(doe);
    var yoe := YearOfEra(doe);
    t, y1, doy := CivilFromDays(days), yoe + era * 400, doe - YearStart(yoe);
    LengthBounds(yoe);
    ModUnique(y1, 400, era, yoe);
  }

  // ----- order

  lemma NextYear(y1: int)
    ensures FirstDay(y1 + 1) == FirstDay(y1) + YearLength(y1 % 400)
  {
    hide YearLength;
    var era, yoe := y1 / 400, y1 % 400;
    YearInEra(yoe);
    if yoe < 399 { ModUnique(y1 + 1, 400, era, yoe + 1); }
    else { ModUnique(y1 + 1, 400, era + 1, 0); }
  }

  lemma {:induction false} YearsIncrease(a: int, b: int)
    requires a < b
    ensures FirstDay(a) + YearLength(a % 400) <= FirstDay(b)
    decreases b - a
  {
    hide YearLength, FirstDay;
    NextYear(a);
    if a + 1 < b {
      YearsIncrease(a + 1, b);
      LengthBounds((a + 1) % 400);
    }
  }

  lemma EarlierIsLess(a: Date, b: Date)
    requires IsDate(a) && IsDate(b) && Earlier(a, b)
    ensures DayNumber(a) < DayNumber(b)
  {
    hide YearLength, FirstDay;
    DayNumberIs(a);
    DayNumberIs(b);
    if MarchYear(a) < MarchYear(b) {
      YearsIncrease(MarchYear(a), MarchYear(b));
    } else {
      assert MarchYear(a) == MarchYear(b);
    }
  }

  /** Day numbers are ordered as dates are: by year, then month, then day. */
  lemma DayOrder(a: Date, b: Date)
    requires IsDate(a) && IsDate(b)
    ensures DayNumber(a) < DayNumber(b) <==> Earlier(a, b)
  {
    if Earlier(a, b) { EarlierIsLess(a, b); }
    if Earlier(b, a) { EarlierIsLess(b, a); }
  }

  /** The numbering is the calendar's: it starts on 1970-01-01 and each next date is one more. */
  lemma CountsDays(t: Date)
    requires IsDate(t)
    ensures DayNumber(Date(1970, 1, 1)) == 0
    ensures DayNumber(NextDay(t)) == DayNumber(t) + 1
  {
    Epoch();
    if t.d < DaysIn(t.y, t.m) { NextInMonth(t); } else { NextInMarchYear(t); }
  }

  lemma NextInMonth(t: Date)
    requires IsDate(t) && t.d < DaysIn(t.y, t.m)
    ensures DayNumber(NextDay(t)) == DayNumber(t) + 1
  {
    hide YearLength, FirstDay, DaysIn, MonthStart, DaysFromCivil;
    DayNumberIs(t);
    DayNumberIs(NextDay(t));
  }

  /** The first of a month follows the last of the month before it, in the same March year
      except after February. */
  lemma NextInMarchYear(t: Date)
    requires IsDate(t) && t.d == DaysIn(t.y, t.m)
    ensures DayNumber(NextDay(t)) == DayNumber(t) + 1
  {
    hide YearLength, FirstDay, DaysIn, DaysFromCivil;
    var n := NextDay(t);
    DayNumberIs(t);
    DayNumberIs(n);
    MonthLengths(t.y, t.m);
    if t.m == 2 {
      NextYear(MarchYear(t));
      assert MarchYear(n) == MarchYear(t) + 1 && DayOfYear(n) == 0;
    } else {
      assert MarchYear(n) == MarchYear(t) && DayOfYear(n) == MonthStart(MarchMonth(t.m) + 1);
    }
  }

  lemma Epoch()
    ensures DayNumber(Date(1970, 1, 1)) == 0
  {
  }
}
