/** Net worked time of one row from its clock-in and clock-out strings:
    wrap past midnight, deduct a one-hour break from shifts longer than an
    hour, report hours to one decimal place. Hours are integer tenths. */
module WorkHours {
  import opened Options
  import opened Text

  const MinutesPerDay := 24 * 60
  const BreakMinutes := 60

  /** A clock reading as parsed: hours and minutes, not range-checked. */
  datatype Clock = Clock(hour: int, minute: int) {
    function Minutes(): int { hour * 60 + minute }
    predicate InRange() { 0 <= hour < 24 && 0 <= minute < 60 }
  }

  /** A clock reading split at every colon, the first two pieces read as
      hour and minute; None when either is NaN or, for a string without a
      colon, missing. */
  function ParseClock(s: string): (r: Option<Clock>)
    ensures ':' !in s ==> r.None?
    ensures r.Some? ==> ':' in s && ToNumber(s[..IndexOf(s, ':')]) == Some(r.value.hour)
  {
    var parts := Split(s, ':');
    var h := ToNumber(parts[0]);
    var m := if |parts| >= 2 then ToNumber(parts[1]) else None;
    if h.Some? && m.Some? then Some(Clock(h.value, m.value)) else None
  }

  /** A reading parses exactly when its first two colon-separated pieces
      both read as numbers, and the second piece is the minute. */
  lemma ParseClockPieces(s: string)
    ensures ParseClock(s).Some? <==>
              |Split(s, ':')| >= 2 && ToNumber(Split(s, ':')[0]).Some? && ToNumber(Split(s, ':')[1]).Some?
    ensures ParseClock(s).Some? ==> ToNumber(Split(s, ':')[1]) == Some(ParseClock(s).value.minute)
  {
  }

  /** `HH:MM` with both parts zero-padded to two digits. */
  function FormatClock(c: Clock): string
    requires c.InRange()
  {
    PadStart2(NatToString(c.hour)) + ":" + PadStart2(NatToString(c.minute))
  }

  /** Raw shift length: clock-out minus clock-in, plus one day once if that
      is negative. For in-range clocks it is the forward distance on the
      24-hour dial from `start` to `end`. */
  function ShiftMinutes(start: Clock, end: Clock): (raw: int)
    ensures raw == end.Minutes() - start.Minutes() || raw == end.Minutes() - start.Minutes() + MinutesPerDay
    ensures raw == end.Minutes() - start.Minutes() + MinutesPerDay <==> end.Minutes() < start.Minutes()
    ensures start.InRange() && end.InRange() ==>
              0 <= raw < MinutesPerDay && (raw - (end.Minutes() - start.Minutes())) % MinutesPerDay == 0
  {
    var d := end.Minutes() - start.Minutes();
    if d < 0 then d + MinutesPerDay else d
  }

  /** Shift length net of the break, which is deducted only from shifts
      strictly longer than the break. */
  function NetMinutes(raw: int): (net: int)
    ensures net <= raw
    ensures net < raw <==> raw > BreakMinutes
    ensures raw > BreakMinutes ==> net == raw - BreakMinutes
    ensures raw >= 0 ==> net >= 0
  {
    if raw > BreakMinutes then raw - BreakMinutes else raw
  }

  /** Minutes to tenths of an hour, rounding to nearest (halves away from
      zero); the result is within half a tenth (3 minutes) of the exact
      value and exact on whole tenths. */
  function RoundTenths(minutes: int): (t: int)
    ensures -3 <= 6 * t - minutes <= 3
    ensures minutes % 6 == 0 ==> 6 * t == minutes
    ensures minutes >= 0 ==> t >= 0
  {
    if minutes >= 0 then (minutes + 3) / 6 else -((3 - minutes) / 6)
  }

  /** Hours, in tenths, worked between two parsed clock readings. For
      in-range readings the result is never negative, is below a day less
      the break, and follows the policy: the forward dial distance from
      clock-in to clock-out, less 60 minutes exactly when that distance
      exceeds 60, rounded to a tenth. */
  function ClockHours(b: Clock, e: Clock): (tenths: int)
    ensures b.InRange() && e.InRange() ==>
              var raw := (e.Minutes() - b.Minutes()) % MinutesPerDay;
              var net := if raw > BreakMinutes then raw - BreakMinutes else raw;
              -3 <= 6 * tenths - net <= 3 && 0 <= tenths <= 230
  {
    var raw := ShiftMinutes(b, e);
    if b.InRange() && e.InRange() then
      DialDistance(b.Minutes(), e.Minutes(), raw);
      RoundTenths(NetMinutes(raw))
    else RoundTenths(NetMinutes(raw))
  }

  /** The forward distance on the dial is the Euclidean remainder. */
  lemma DialDistance(start: int, end: int, raw: int)
    requires 0 <= start < MinutesPerDay && 0 <= end < MinutesPerDay
    requires raw == end - start || raw == end - start + MinutesPerDay
    requires 0 <= raw < MinutesPerDay
    ensures raw == (end - start) % MinutesPerDay
  {
  }

  /** `calcWorkHours`, in tenths of an hour: 0 when either time is empty or
      a component is NaN, otherwise the hours between the parsed readings. */
  function CalcWorkHours(beTime: string, edTime: string): (tenths: int)
    ensures beTime == "" || edTime == "" ==> tenths == 0
    ensures ParseClock(beTime).None? || ParseClock(edTime).None? ==> tenths == 0
    ensures beTime != "" && edTime != "" && ParseClock(beTime).Some? && ParseClock(edTime).Some? ==>
              tenths == ClockHours(ParseClock(beTime).value, ParseClock(edTime).value)
  {
    if beTime == "" || edTime == "" then 0
    else match (ParseClock(beTime), ParseClock(edTime))
      case (Some(b), Some(e)) => ClockHours(b, e)
      case _ => 0
  }

  /** Reading back a formatted in-range clock gives the same clock. */
  lemma ParseFormatClock(c: Clock)
    requires c.InRange()
    ensures ParseClock(FormatClock(c)) == Some(c)
  {
    var hs := PadStart2(NatToString(c.hour));
    var ms := PadStart2(NatToString(c.minute));
    ToNumberPadded(c.hour);
    ToNumberPadded(c.minute);
    ParseJoined(hs, ms);
  }

  /** Two colon-free pieces joined by a colon split back into the two, so
      the clock read is the two pieces' numbers. */
  lemma ParseJoined(hs: string, ms: string)
    requires ':' !in hs && ':' !in ms
    ensures ParseClock(hs + ":" + ms) == if ToNumber(hs).Some? && ToNumber(ms).Some?
                                         then Some(Clock(ToNumber(hs).value, ToNumber(ms).value)) else None
  {
    assert Join([hs, ms], ':') == hs + ":" + ms;
    SplitJoin([hs, ms], ':');
  }

  /** Hours between two readings written as formatted in-range clocks. */
  lemma HoursOfFormatted(bs: string, es: string, b: Clock, e: Clock)
    requires b.InRange() && e.InRange()
    requires bs == FormatClock(b) && es == FormatClock(e)
    ensures CalcWorkHours(bs, es) == ClockHours(b, e)
  {
    ParseFormatClock(b);
    ParseFormatClock(e);
  }

  /** `FormatClock` writes `HH:MM`. */
  lemma FormatClockExamples()
    ensures FormatClock(Clock(9, 0)) == "09:00"
    ensures FormatClock(Clock(18, 0)) == "18:00"
    ensures FormatClock(Clock(22, 0)) == "22:00"
    ensures FormatClock(Clock(6, 0)) == "06:00"
    ensures FormatClock(Clock(9, 30)) == "09:30"
    ensures FormatClock(Clock(10, 1)) == "10:01"
  {
    PaddedNumerals();
  }

  /** The padded numerals of the hours and minutes in the examples. */
  lemma PaddedNumerals()
    ensures PadStart2(NatToString(0)) == "00" && PadStart2(NatToString(1)) == "01"
    ensures PadStart2(NatToString(6)) == "06" && PadStart2(NatToString(9)) == "09"
    ensures PadStart2(NatToString(10)) == "10" && PadStart2(NatToString(18)) == "18"
    ensures PadStart2(NatToString(22)) == "22" && PadStart2(NatToString(30)) == "30"
  {
    assert NatToString(0) == "0";
    assert NatToString(1) == "1";
    assert NatToString(6) == "6";
    assert NatToString(9) == "9";
    assert NatToString(10) == "10";
    assert NatToString(18) == "18";
    assert NatToString(22) == "22";
    assert NatToString(30) == "30";
  }

  /** A day shift: 09:00 to 18:00 is nine hours less the break. */
  lemma ExampleDayShift()
    ensures CalcWorkHours("09:00", "18:00") == 80
  {
    FormatClockExamples();
    HoursOfFormatted("09:00", "18:00", Clock(9, 0), Clock(18, 0));
  }

  /** An overnight shift: 22:00 to 06:00 wraps past midnight. */
  lemma ExampleOvernight()
    ensures CalcWorkHours("22:00", "06:00") == 70
  {
    FormatClockExamples();
    HoursOfFormatted("22:00", "06:00", Clock(22, 0), Clock(6, 0));
  }

  /** Half an hour keeps its full length: no break is deducted. */
  lemma ExampleHalfHour()
    ensures CalcWorkHours("09:00", "09:30") == 5
  {
    FormatClockExamples();
    HoursOfFormatted("09:00", "09:30", Clock(9, 0), Clock(9, 30));
  }

  /** The sharp edge: 61 minutes nets one minute, which rounds to 0.0. */
  lemma ExampleJustOverBreak()
    ensures CalcWorkHours("09:00", "10:01") == 0
  {
    FormatClockExamples();
    HoursOfFormatted("09:00", "10:01", Clock(9, 0), Clock(10, 1));
  }

  /** An unparsable clock-in gives 0 hours. */
  lemma ExampleUnparsable()
    ensures CalcWorkHours("bad", "18:00") == 0
  {
    assert Split("bad", ':') == ["bad"];
    assert Trim("bad") == "bad" by {
      assert StartFrom("bad", IsJsSpace, 0) == 0;
      assert EndFrom("bad", IsJsSpace, 0, 3) == 3;
    }
    assert !IsDigit("bad"[0]);
  }
}
