/** Month navigation on the dashboard: the `YYYY-MM` string in the address
    is split, read as two numbers, moved by an offset through the local
    `Date` constructor and printed back. */
module MonthNav {
  import opened Options
  import opened Text
  import opened IsoWeek

  /** What the `Date` constructor does with `new Date(year, monthIndex, 1)`:
      a year 0..99 is read as 1900..1999 first, then a month index outside
      0..11 carries into the year. The result is the calendar year and the
      zero-based month. */
  function MonthStart(year: int, monthIndex: int): (r: (int, int))
    ensures 0 <= r.1 < 12
    ensures r.0 * 12 + r.1 == UtcYear(year) * 12 + monthIndex
  {
    var y := UtcYear(year);
    (y + monthIndex / 12, monthIndex % 12)
  }

  /** The month as it is printed: the year, a dash, and the one-based
      month padded to two digits. */
  function FormatMonth(year: int, month: nat): string {
    IntToString(year) + "-" + PadStart2(NatToString(month))
  }

  /** The month string split at every dash, the first two pieces read as
      numbers; None when either is NaN, including when there is no second
      piece. */
  function ParseMonth(s: string): (r: Option<(int, int)>)
    ensures '-' !in s ==> r.None?
    ensures r.Some? ==> '-' in s && ToNumber(s[..IndexOf(s, '-')]) == Some(r.value.0)
  {
    var parts := Split(s, '-');
    var y := ToNumber(parts[0]);
    var m := if |parts| >= 2 then ToNumber(parts[1]) else None;
    if y.Some? && m.Some? then Some((y.value, m.value)) else None
  }

  /** A month string reads exactly when its first two dash-separated pieces
      both read as numbers, and the second piece is the month. */
  lemma ParseMonthPieces(s: string)
    ensures ParseMonth(s).Some? <==>
              |Split(s, '-')| >= 2 && ToNumber(Split(s, '-')[0]).Some? && ToNumber(Split(s, '-')[1]).Some?
    ensures ParseMonth(s).Some? ==> ToNumber(Split(s, '-')[1]) == Some(ParseMonth(s).value.1)
  {
  }

  /** What an invalid date prints as: `NaN` for both year and month. */
  const InvalidMonth := "NaN-NaN"

  /** The month count of a year and a one-based month: months since year 0. */
  function MonthCount(year: int, month: int): int {
    year * 12 + month - 1
  }

  /** A year and month can be told apart from their month count. */
  lemma MonthCountInjective(y1: int, m1: int, y2: int, m2: int)
    requires 1 <= m1 <= 12 && 1 <= m2 <= 12
    requires MonthCount(y1, m1) == MonthCount(y2, m2)
    ensures y1 == y2 && m1 == m2
  {
  }

  /** The year and one-based month `offset` months after month `month` of
      `year`, as the `Date` constructor computes them: the month whose count
      is `offset` more than that of the constructor's reading of the year. */
  function ShiftMonth(year: int, month: int, offset: int): (r: (int, int))
    ensures 1 <= r.1 <= 12
    ensures MonthCount(r.0, r.1) == MonthCount(UtcYear(year), month) + offset
  {
    var d := MonthStart(year, month - 1 + offset);
    (d.0, d.1 + 1)
  }

  /** `changeMonth(offset)`: the month `offset` months away from `current`,
      as the string pushed into the address. It is `NaN-NaN` exactly when
      `current` does not read as two numbers. */
  function ChangeMonth(current: string, offset: int): (r: string)
    ensures r == InvalidMonth <==> ParseMonth(current).None?
  {
    var p := ParseMonth(current);
    if p.None? then InvalidMonth
    else
      var q := ShiftMonth(p.value.0, p.value.1, offset);
      FormattedIsValid(q.0, q.1);
      FormatMonth(q.0, q.1)
  }

  /** A valid move reads back as the month `offset` months after the one
      `current` reads as, whenever that month's year prints without a sign. */
  lemma ChangeMonthReadsBack(current: string, offset: int)
    ensures ParseMonth(current).Some? ==>
              var q := ShiftMonth(ParseMonth(current).value.0, ParseMonth(current).value.1, offset);
              q.0 >= 0 ==> ParseMonth(ChangeMonth(current, offset)) == Some(q)
  {
    var p := ParseMonth(current);
    if p.Some? {
      var q := ShiftMonth(p.value.0, p.value.1, offset);
      ChangeParsed(current, p.value.0, p.value.1, offset);
      if q.0 >= 0 {
        ParseFormat(q.0, q.1);
      }
    }
  }

  /** A printed month never reads `NaN-NaN`: it starts with a digit or a sign. */
  lemma FormattedIsValid(year: int, month: nat)
    ensures FormatMonth(year, month) != InvalidMonth
  {
    var ys := IntToString(year);
    assert FormatMonth(year, month)[0] == ys[0];
    if year >= 0 {
      assert IsDigit(ys[0]);
    }
  }

  /** A month 1..12 prints as exactly two digits. */
  lemma MonthDigits(m: int)
    requires 1 <= m <= 12
    ensures var ms := PadStart2(NatToString(m)); |ms| == 2 && AllDigits(ms)
  {
    if m >= 10 {
      assert NatToString(m) == NatToString(m / 10) + ['0' + (m % 10) as char];
    }
  }

  /** A printed month 1..12 ends in a dash and two digits. */
  lemma FormatMonthTail(year: int, month: int)
    requires 1 <= month <= 12
    ensures var r := FormatMonth(year, month);
            |r| >= 3 && r[|r| - 3] == '-' && IsDigit(r[|r| - 2]) && IsDigit(r[|r| - 1])
  {
    MonthDigits(month);
    var ms := PadStart2(NatToString(month));
    var r := IntToString(year) + "-" + ms;
    assert r[|r| - 3] == '-' && r[|r| - 2] == ms[0] && r[|r| - 1] == ms[1];
  }

  /** A valid move prints its month as a dash and two digits at the end of
      the string, zero-padded below October. */
  lemma ChangeMonthPadded(current: string, offset: int)
    ensures ParseMonth(current).Some? ==>
              var r := ChangeMonth(current, offset);
              |r| >= 3 && r[|r| - 3] == '-' && IsDigit(r[|r| - 2]) && IsDigit(r[|r| - 1])
  {
    var p := ParseMonth(current);
    if p.Some? {
      var q := ShiftMonth(p.value.0, p.value.1, offset);
      ChangeParsed(current, p.value.0, p.value.1, offset);
      FormatMonthTail(q.0, q.1);
    }
  }

  /** Two moves are one move by the sum, once the first move has landed in
      year 100 or later. */
  lemma ShiftCompose(year: int, month: int, a: int, b: int, c: int)
    requires 1 <= month <= 12
    requires MonthCount(UtcYear(year), month) + a >= MonthCount(100, 1)
    requires c == a + b
    ensures var q := ShiftMonth(year, month, a);
            ShiftMonth(q.0, q.1, b) == ShiftMonth(year, month, c)
  {
    var q := ShiftMonth(year, month, a);
    var r := ShiftMonth(q.0, q.1, b);
    var s := ShiftMonth(year, month, c);
    MonthCountInjective(r.0, r.1, s.0, s.1);
  }

  /** A move by zero keeps a year 100 or later and its month. */
  lemma ShiftZero(year: int, month: int)
    requires year >= 100 && 1 <= month <= 12
    ensures ShiftMonth(year, month, 0) == (year, month)
  {
    var q := ShiftMonth(year, month, 0);
    MonthCountInjective(q.0, q.1, year, month);
  }

  /** Printing a month and reading it back gives the year and month, for
      any year that prints without a sign. */
  lemma ParseFormat(year: int, month: nat)
    requires year >= 0
    ensures ParseMonth(FormatMonth(year, month)) == Some((year, month))
  {
    var ys := IntToString(year);
    var ms := PadStart2(NatToString(month));
    ToNumberPadded(month);
    ToNumberIntToString(year);
    DigitsSplitTwo(ys, ms);
  }

  /** Two digit strings joined by a dash split back into the two. */
  lemma DigitsSplitTwo(a: string, b: string)
    requires AllDigits(a) && AllDigits(b)
    ensures Split(a + "-" + b, '-') == [a, b]
  {
    assert '-' !in a;
    assert '-' !in b;
    assert Join([a, b], '-') == a + "-" + b by {
      assert Join([a, b][1..], '-') == b;
    }
    SplitJoin([a, b], '-');
  }

  /** A month string that reads as year `y` and month `m` moves to the
      printed `ShiftMonth(y, m, offset)`. */
  lemma ChangeParsed(current: string, year: int, month: int, offset: int)
    requires ParseMonth(current) == Some((year, month))
    ensures var q := ShiftMonth(year, month, offset);
            ChangeMonth(current, offset) == FormatMonth(q.0, q.1)
  {
  }

  /** Moving twice is moving once by the sum `c`, for a month string that
      reads as a month of year 100 or later when the first move stays in
      year 100 or later. */
  lemma ChangeCompose(current: string, year: int, month: int, a: int, b: int, c: int)
    requires ParseMonth(current) == Some((year, month))
    requires year >= 100 && 1 <= month <= 12
    requires MonthCount(year, month) + a >= MonthCount(100, 1)
    requires c == a + b
    ensures ChangeMonth(ChangeMonth(current, a), b) == ChangeMonth(current, c)
  {
    var q := ShiftMonth(year, month, a);
    ChangeParsed(current, year, month, a);
    ParseFormat(q.0, q.1);
    ChangeParsed(FormatMonth(q.0, q.1), q.0, q.1, b);
    ChangeParsed(current, year, month, c);
    ShiftCompose(year, month, a, b, c);
  }

  /** A move by `a` followed by the opposite move `b` lands where a move
      by zero does. */
  lemma ChangeUndo(current: string, year: int, month: int, a: int, b: int)
    requires ParseMonth(current) == Some((year, month))
    requires year >= 100 && 1 <= month <= 12
    requires MonthCount(year, month) + a >= MonthCount(100, 1)
    requires b == -a
    ensures ChangeMonth(ChangeMonth(current, a), b) == ChangeMonth(current, 0)
  {
    ChangeCompose(current, year, month, a, b, 0);
  }

  /** A move by zero prints the month the string reads as, when its year
      is 100 or later. */
  lemma ChangeZero(current: string, year: int, month: int)
    requires ParseMonth(current) == Some((year, month))
    requires year >= 100 && 1 <= month <= 12
    ensures ChangeMonth(current, 0) == FormatMonth(year, month)
  {
    ChangeParsed(current, year, month, 0);
    ShiftZero(year, month);
  }

  /** December moves into January of the next year. */
  lemma NextAfterDecember()
    ensures ChangeMonth("2025-12", 1) == "2026-01"
  {
    assert NatToString(2) == "2";
    assert NatToString(20) == "20";
    assert NatToString(202) == "202";
    assert NatToString(2025) == "2025";
    assert NatToString(2026) == "2026";
    assert NatToString(12) == "12";
    assert NatToString(1) == "1";
    assert FormatMonth(2025, 12) == "2025-12";
    assert FormatMonth(2026, 1) == "2026-01";
    ParseFormat(2025, 12);
    ChangeParsed("2025-12", 2025, 12, 1);
    var q := ShiftMonth(2025, 12, 1);
    MonthCountInjective(q.0, q.1, 2026, 1);
  }

  /** A month string without a dash has no month part and becomes
      `NaN-NaN`, whatever the offset. */
  lemma NoDashIsInvalid(current: string, offset: int)
    requires '-' !in current
    ensures ChangeMonth(current, offset) == InvalidMonth
  {
    assert Split(current, '-') == [current];
  }

  /** A two-digit year is read as a 20th-century year by the `Date`
      constructor, so staying put on `0050-03` prints `1950-03`. */
  lemma TwoDigitYearMoves()
    ensures ChangeMonth("0050-03", 0) == "1950-03"
  {
    ParseTwoDigitYear();
    ChangeParsed("0050-03", 50, 3, 0);
    var q := ShiftMonth(50, 3, 0);
    MonthCountInjective(q.0, q.1, 1950, 3);
    PrintNineteenFifty();
  }

  lemma PrintNineteenFifty()
    ensures FormatMonth(1950, 3) == "1950-03"
  {
    assert NatToString(1) == "1";
    assert NatToString(19) == "19";
    assert NatToString(195) == "195";
    assert NatToString(1950) == "1950";
    assert NatToString(3) == "3";
  }

  /** `0050-03` reads as year 50, month 3. */
  lemma ParseTwoDigitYear()
    ensures ParseMonth("0050-03") == Some((50, 3))
  {
    assert "0050" + "-" + "03" == "0050-03";
    DigitsSplitTwo("0050", "03");
    ReadFifty();
    ReadThree();
  }

  lemma ReadFifty()
    ensures ToNumber("0050") == Some(50)
  {
    TrimDigits("0050");
    assert "0050"[..3] == "005" && "005"[..2] == "00" && "00"[..1] == "0" && "0"[..0] == "";
  }

  lemma ReadThree()
    ensures ToNumber("03") == Some(3)
  {
    TrimDigits("03");
    assert "03"[..1] == "0" && "0"[..0] == "";
  }
}
