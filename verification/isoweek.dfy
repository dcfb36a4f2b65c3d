/** `getWeekNumber`: the week number of ISO 8601 (ISO 8601:2004 section
    4.1.4, week dates): weeks run Monday to Sunday and week 1 of a year is
    the week holding that year's first Thursday. Dates are proleptic
    Gregorian; days are counted from 0001-01-01, a Monday, as day 0. */
module IsoWeek {
  import opened Options
  import opened Text

  datatype Date = Date(year: int, month: int, day: int)

  predicate IsLeap(y: int) {
    y % 4 == 0 && (y % 100 != 0 || y % 400 == 0)
  }

  function YearLength(y: int): int {
    if IsLeap(y) then 366 else 365
  }

  function DaysInMonth(y: int, m: int): int
    requires 1 <= m <= 12
  {
    if m == 2 then (if IsLeap(y) then 29 else 28)
    else if m == 4 || m == 6 || m == 9 || m == 11 then 30
    else 31
  }

  /** Days of year `y` before the first of month `m`. */
  function DaysBeforeMonth(y: int, m: int): int
    requires 1 <= m <= 12
  {
    [0, 31, 59, 90, 120, 151, 181, 212, 243, 273, 304, 334][m - 1]
      + (if m > 2 && IsLeap(y) then 1 else 0)
  }

  /** Day number of January 1 of year `y` (floor division throughout, so
      it also holds for years before 1). */
  function DaysBeforeYear(y: int): int {
    var p := y - 1;
    365 * p + p / 4 - p / 100 + p / 400
  }

  /** Day number of `y-m-d`, letting `d` run past the end of the month as
      `Date.UTC` does. */
  function DayNumber(y: int, m: int, d: int): int
    requires 1 <= m <= 12
  {
    DaysBeforeYear(y) + DaysBeforeMonth(y, m) + d - 1
  }

  /** Consecutive years are a year length apart. */
  lemma YearStep(y: int)
    ensures DaysBeforeYear(y + 1) == DaysBeforeYear(y) + YearLength(y)
  {
    var p := y - 1;
    FloorStep(p, 4);
    FloorStep(p, 100);
    FloorStep(p, 400);
    LeapDivisors(y);
    var c4 := if y % 4 == 0 then 1 else 0;
    var c100 := if y % 100 == 0 then 1 else 0;
    var c400 := if y % 400 == 0 then 1 else 0;
    assert DaysBeforeYear(y + 1) - DaysBeforeYear(y) == 365 + c4 - c100 + c400;
  }

  /** A multiple of 400 is one of 100, and a multiple of 100 is one of 4. */
  lemma LeapDivisors(y: int)
    ensures y % 100 == 0 ==> y % 4 == 0
    ensures y % 400 == 0 ==> y % 100 == 0
  {
    if y % 100 == 0 {
      assert y == 4 * (25 * (y / 100));
      DivUnique(y, 4, 25 * (y / 100), 0);
    }
    if y % 400 == 0 {
      assert y == 100 * (4 * (y / 400));
      DivUnique(y, 100, 4 * (y / 400), 0);
    }
  }

  /** Floor division by `k` steps up by one exactly at multiples of `k`. */
  lemma FloorStep(p: int, k: int)
    requires k > 0
    ensures (p + 1) / k == p / k + (if (p + 1) % k == 0 then 1 else 0)
  {
    var q := p / k;
    var r := p % k;
    assert p == k * q + r && 0 <= r < k;
    if r == k - 1 {
      DivUnique(p + 1, k, q + 1, 0);
    } else {
      DivUnique(p + 1, k, q, r + 1);
    }
  }

  /** Quotient and remainder are determined by `a == k * q + r, 0 <= r < k`. */
  lemma DivUnique(a: int, k: int, q: int, r: int)
    requires k > 0 && a == k * q + r && 0 <= r < k
    ensures a / k == q && a % k == r
  {
    var q' := a / k;
    var r' := a % k;
    assert a == k * q' + r' && 0 <= r' < k;
    if q' > q {
      assert k * q' >= k * (q + 1) by { MulMonotone(k, q + 1, q'); }
    } else if q' < q {
      assert k * q >= k * (q' + 1) by { MulMonotone(k, q' + 1, q); }
    }
  }

  lemma MulMonotone(k: int, a: int, b: int)
    requires k > 0 && a <= b
    ensures k * a <= k * b
  {
    assert k * b - k * a == k * (b - a);
  }

  /** January 1 moves forward with the year. */
  lemma {:induction false} YearMonotone(a: int, b: int)
    requires a <= b
    ensures DaysBeforeYear(a) + 365 * (b - a) <= DaysBeforeYear(b)
    decreases b - a
  {
    if a < b {
      YearMonotone(a, b - 1);
      YearStep(b - 1);
    }
  }

  /** A day number lies in at most one year. */
  lemma YearUnique(n: int, y1: int, y2: int)
    requires DaysBeforeYear(y1) <= n < DaysBeforeYear(y1 + 1)
    requires DaysBeforeYear(y2) <= n < DaysBeforeYear(y2 + 1)
    ensures y1 == y2
  {
    if y1 < y2 {
      YearMonotone(y1 + 1, y2);
    } else if y2 < y1 {
      YearMonotone(y2 + 1, y1);
    }
  }

  /** ISO weekday, 1 = Monday .. 7 = Sunday. */
  function IsoWeekday(n: int): int {
    n % 7 + 1
  }

  /** The Thursday of the Monday-to-Sunday week holding day `n`: the day
      moved forward by four minus its ISO weekday, Sunday counting as 7. */
  function Thursday(n: int): (t: int)
    ensures n - 3 <= t <= n + 3
    ensures IsoWeekday(t) == 4
  {
    n + 4 - IsoWeekday(n)
  }

  /** The year holding day `t`, given that `t` lies within one year of the
      start of year `y`. */
  function YearOf(t: int, y: int): (r: int)
    requires DaysBeforeYear(y - 1) <= t < DaysBeforeYear(y + 2)
    ensures DaysBeforeYear(r) <= t < DaysBeforeYear(r + 1)
  {
    if t < DaysBeforeYear(y) then y - 1
    else if t >= DaysBeforeYear(y + 1) then y + 1
    else y
  }

  /** ISO 8601 week number of day `n` of year `y`: the 1-based day of the
      year of its Thursday, divided by 7 and rounded up. */
  function IsoWeekOfDay(n: int, y: int): (w: int)
    requires DaysBeforeYear(y) <= n < DaysBeforeYear(y + 1)
    ensures 1 <= w <= 53
  {
    YearStep(y - 1);
    YearStep(y);
    YearStep(y + 1);
    var t := Thursday(n);
    var ty := YearOf(t, y);
    YearStep(ty);
    var ordinal := t - DaysBeforeYear(ty) + 1;
    (ordinal + 6) / 7
  }

  /** Week number of day `n` of year `y` as `getWeekNumber` computes it:
      the ISO computation, except that the start of the Thursday's year is
      rebuilt with `Date.UTC`, which reads a year 0..99 as 1900..1999. The
      two agree unless that Thursday falls in a year 0..99. */
  function WeekOfDay(n: int, y: int): (w: int)
    requires DaysBeforeYear(y) <= n < DaysBeforeYear(y + 1)
    ensures (y <= -2 || 101 <= y) ==> w == IsoWeekOfDay(n, y)
  {
    YearStep(y - 1);
    YearStep(y);
    YearStep(y + 1);
    var t := Thursday(n);
    var ty := YearOf(t, y);
    var ordinal := t - DaysBeforeYear(UtcYear(ty)) + 1;
    (ordinal + 6) / 7
  }

  /** `y-m-d` is an accepted date: month 1..12, day 1..31 (a day past the
      end of its month rolls into the next month, as `new Date` does). */
  predicate ValidDate(d: Date) {
    1 <= d.month <= 12 && 1 <= d.day <= 31
  }

  /** Rolls a day past the end of its month into the next month, within
      the date's own year, as the parsed `Date` reports its month and day. */
  function Normalize(d: Date): (r: Date)
    requires ValidDate(d)
    ensures ValidDate(r) && r.year == d.year && r.day <= DaysInMonth(r.year, r.month)
    ensures DayNumber(r.year, r.month, r.day) == DayNumber(d.year, d.month, d.day)
  {
    if d.day <= DaysInMonth(d.year, d.month) then d
    else Date(d.year, d.month + 1, d.day - DaysInMonth(d.year, d.month))
  }

  /** `Date.UTC` reads a year 0..99 as 1900..1999. */
  function UtcYear(y: int): int {
    if 0 <= y <= 99 then y + 1900 else y
  }

  /** The day `getWeekNumber` works on: the normalised date rebuilt with
      `Date.UTC`. */
  function UtcDayNumber(d: Date): (n: int)
    requires ValidDate(d)
    ensures var y := UtcYear(d.year); DaysBeforeYear(y) <= n < DaysBeforeYear(y + 1)
  {
    var r := Normalize(d);
    var y := UtcYear(r.year);
    YearStep(y);
    DayNumber(y, r.month, r.day)
  }

  /** `getWeekNumber` of an accepted date. */
  function WeekNumber(d: Date): (w: int)
    requires ValidDate(d)
    ensures d.year != 100 && d.year != -1 ==>
              w == IsoWeekOfDay(UtcDayNumber(d), UtcYear(d.year)) && 1 <= w <= 53
  {
    WeekOfDay(UtcDayNumber(d), UtcYear(d.year))
  }

  /** The shape `YYYY-MM-DD`: ten characters, dashes at positions 4 and 7,
      decimal digits elsewhere. */
  predicate WellFormedDate(s: string) {
    |s| == 10 && s[4] == '-' && s[7] == '-' && AllDigits(s[..4]) && AllDigits(s[5..7]) && AllDigits(s[8..])
  }

  /** `YYYY-MM-DD` with four, two and two decimal digits; anything else is
      not a date. */
  function ParseIsoDate(s: string): (d: Option<Date>)
    ensures d.Some? ==> ValidDate(d.value) && 0 <= d.value.year <= 9999
    ensures d.Some? <==> WellFormedDate(s) && 1 <= DigitsValue(s[5..7]) <= 12 && 1 <= DigitsValue(s[8..]) <= 31
    ensures d.Some? ==> d.value == Date(DigitsValue(s[..4]), DigitsValue(s[5..7]), DigitsValue(s[8..]))
  {
    if |s| == 10 && s[4] == '-' && s[7] == '-'
       && AllDigits(s[..4]) && AllDigits(s[5..7]) && AllDigits(s[8..])
    then
      var y := DigitsValue(s[..4]);
      var m := DigitsValue(s[5..7]);
      var day := DigitsValue(s[8..]);
      DigitsBound(s[..4]);
      if 1 <= m <= 12 && 1 <= day <= 31 then Some(Date(y, m, day)) else None
    else None
  }

  /** A numeral of `k` digits is below `10^k`; here for four digits. */
  lemma DigitsBound(s: string)
    requires AllDigits(s) && |s| == 4
    ensures DigitsValue(s) <= 9999
  {
    DigitsValueBelow(s);
    assert Pow10(4) == 10000;
  }

  function Pow10(k: nat): nat {
    if k == 0 then 1 else 10 * Pow10(k - 1)
  }

  /** A numeral of `k` digits is below `10^k`. */
  lemma {:induction false} DigitsValueBelow(s: string)
    requires AllDigits(s)
    ensures DigitsValue(s) < Pow10(|s|)
    decreases |s|
  {
    if s != [] {
      DigitsValueBelow(s[..|s|-1]);
    }
  }

  /** The week number of a `TMDATE` string, None standing for the `NaN`
      that an unparsable date produces. */
  function WeekNumberOf(s: string): (w: Option<int>)
    ensures w.Some? <==> ParseIsoDate(s).Some?
    ensures w.Some? && ParseIsoDate(s).value.year != 100 ==> 1 <= w.value <= 53
  {
    match ParseIsoDate(s)
    case Some(d) => Some(WeekNumber(d))
    case None => None
  }

  // ----- properties -----

  /** The first Thursday of year `y`. */
  function FirstThursday(y: int): (t: int)
    ensures DaysBeforeYear(y) <= t < DaysBeforeYear(y) + 7
    ensures IsoWeekday(t) == 4
  {
    var j := DaysBeforeYear(y);
    NextThursday(j);
    j + (3 - j % 7) % 7
  }

  /** The first Thursday on or after day `j` is at most six days later. */
  lemma NextThursday(j: int)
    ensures 0 <= (3 - j % 7) % 7 < 7
    ensures IsoWeekday(j + (3 - j % 7) % 7) == 4
  {
    var r := j % 7;
    var o := (3 - r) % 7;
    assert j == 7 * (j / 7) + r;
    if r <= 3 {
      assert o == 3 - r;
      DivUnique(j + o, 7, j / 7, 3);
    } else {
      DivUnique(3 - r, 7, -1, 10 - r);
      DivUnique(j + o, 7, j / 7 + 1, 3);
    }
  }

  /** Reference definition of the ISO week: week 1 holds the year's first
      Thursday, and the week number counts whole weeks from it to the
      Thursday of the day's own week, in the year that Thursday falls in. */
  lemma WeekCountsFromFirstThursday(n: int, y: int)
    requires DaysBeforeYear(y) <= n < DaysBeforeYear(y + 1)
    ensures var t := Thursday(n);
            var ty := YearOf(t, y);
            IsoWeekOfDay(n, y) == (t - FirstThursday(ty)) / 7 + 1
              && (t - FirstThursday(ty)) % 7 == 0
  {
    var t := Thursday(n);
    var ty := YearOf(t, y);
    YearStep(ty);
    ThursdayCount(t, DaysBeforeYear(ty), FirstThursday(ty));
  }

  /** Arithmetic core of the reference definition: for a Thursday `t` on or
      after day `j`, and `f` the first Thursday on or after `j`, rounding up
      the 1-based offset of `t` from `j` in weeks counts whole weeks from `f`. */
  lemma ThursdayCount(t: int, j: int, f: int)
    requires j <= t && j <= f < j + 7
    requires t % 7 == 3 && f % 7 == 3
    ensures (t - f) % 7 == 0 && t >= f
    ensures (t - j + 1 + 6) / 7 == (t - f) / 7 + 1
  {
    var a := t / 7;
    var b := f / 7;
    assert t == 7 * a + 3 && f == 7 * b + 3;
    assert t - f == 7 * (a - b);
    DivUnique(t - f, 7, a - b, 0);
    assert t - f > -7;
    assert a - b >= 0;
    assert t - j + 7 == 7 * (a - b + 1) + (f - j);
    DivUnique(t - j + 7, 7, a - b + 1, f - j);
  }

  /** Two accepted dates in the same Monday-to-Sunday week have the same
      week number, also when the week straddles New Year. */
  lemma SameWeekSameNumber(d1: Date, d2: Date)
    requires ValidDate(d1) && ValidDate(d2)
    requires UtcDayNumber(d1) - (IsoWeekday(UtcDayNumber(d1)) - 1) == UtcDayNumber(d2) - (IsoWeekday(UtcDayNumber(d2)) - 1)
    ensures WeekNumber(d1) == WeekNumber(d2)
  {
    SameThursdaySameWeek(UtcDayNumber(d1), UtcYear(d1.year), UtcDayNumber(d2), UtcYear(d2.year));
  }

  /** Days sharing a Thursday get the same week number. */
  lemma SameThursdaySameWeek(n1: int, y1: int, n2: int, y2: int)
    requires DaysBeforeYear(y1) <= n1 < DaysBeforeYear(y1 + 1)
    requires DaysBeforeYear(y2) <= n2 < DaysBeforeYear(y2 + 1)
    requires Thursday(n1) == Thursday(n2)
    ensures WeekOfDay(n1, y1) == WeekOfDay(n2, y2)
  {
    var t := Thursday(n1);
    ThursdayNear(n1, y1);
    ThursdayNear(n2, y2);
    YearUnique(t, YearOf(t, y1), YearOf(t, y2));
  }

  /** The Thursday of a day lies within a year of the day's own year. */
  lemma ThursdayNear(n: int, y: int)
    requires DaysBeforeYear(y) <= n < DaysBeforeYear(y + 1)
    ensures DaysBeforeYear(y - 1) <= Thursday(n) < DaysBeforeYear(y + 2)
  {
    YearStep(y - 1);
    YearStep(y);
    YearStep(y + 1);
  }

  /** 2026 starts on a Thursday, so 2026-01-01 (Thursday) and 2026-01-04
      (Sunday) are in week 1. */
  lemma WeekNumberExamplesJanuary()
    ensures WeekNumber(Date(2026, 1, 1)) == 1
    ensures WeekNumber(Date(2026, 1, 4)) == 1
  {
    assert DaysBeforeYear(2026) == 739616;
    assert DaysBeforeYear(2027) == 739981;
    assert UtcDayNumber(Date(2026, 1, 1)) == 739616;
    assert UtcDayNumber(Date(2026, 1, 4)) == 739619;
    assert Thursday(739616) == 739616;
    assert Thursday(739619) == 739616;
  }

  /** Monday 2025-12-29 belongs to week 1 of the following year. */
  lemma WeekNumberExampleLateDecember()
    ensures WeekNumber(Date(2025, 12, 29)) == 1
  {
    assert DaysBeforeYear(2025) == 739251;
    assert DaysBeforeYear(2026) == 739616;
    assert DaysBeforeYear(2027) == 739981;
    assert UtcDayNumber(Date(2025, 12, 29)) == 739613;
    assert Thursday(739613) == 739616;
  }

  /** 2026 has 53 weeks; the last one holds Thursday 2026-12-31 and
      Friday 2027-01-01. */
  lemma WeekNumberExamplesNewYear()
    ensures WeekNumber(Date(2026, 12, 31)) == 53
    ensures WeekNumber(Date(2027, 1, 1)) == 53
  {
    assert DaysBeforeYear(2026) == 739616;
    assert DaysBeforeYear(2027) == 739981;
    assert DaysBeforeYear(2028) == 740346;
    assert UtcDayNumber(Date(2026, 12, 31)) == 739980;
    assert UtcDayNumber(Date(2027, 1, 1)) == 739981;
    assert Thursday(739980) == 739980;
    assert Thursday(739981) == 739980;
  }

  /** Friday 0100-01-01 belongs to the week of Thursday 0099-12-31, whose
      year start `Date.UTC` rebuilds as 1999-01-01: the week number comes
      out negative instead of 53. */
  lemma WeekNumberYearHundred()
    ensures WeekNumber(Date(100, 1, 1)) == -99085
    ensures IsoWeekOfDay(UtcDayNumber(Date(100, 1, 1)), 100) == 53
  {
    assert DaysBeforeYear(99) == 35794;
    assert DaysBeforeYear(100) == 36159;
    assert DaysBeforeYear(101) == 36524;
    assert DaysBeforeYear(1999) == 729754;
    assert UtcDayNumber(Date(100, 1, 1)) == 36159;
    assert Thursday(36159) == 36158;
  }

  /** `TMDATE` strings are read as written. */
  lemma ParseIsoDateExample()
    ensures ParseIsoDate("2026-01-04") == Some(Date(2026, 1, 4))
    ensures ParseIsoDate("2026-13-01") == None
    ensures ParseIsoDate("") == None
  {
    var s := "2026-01-04";
    assert s[..4] == "2026" && s[5..7] == "01" && s[8..] == "04";
    assert "2026"[..3] == "202" && "202"[..2] == "20" && "20"[..1] == "2" && "2"[..0] == "";
    assert DigitsValue("2026") == 2026;
    assert "01"[..1] == "0" && "04"[..1] == "0" && "0"[..0] == "";
    assert DigitsValue("01") == 1;
    assert DigitsValue("04") == 4;
    var u := "2026-13-01";
    assert u[5..7] == "13";
    assert "13"[..1] == "1" && "1"[..0] == "";
    assert DigitsValue("13") == 13;
  }
}
