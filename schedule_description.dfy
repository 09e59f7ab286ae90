/**
 * The human-readable description of a schedule (`getScheduleDescription`,
 * `describeRule` and its helpers, `formatTimeForDisplay` in
 * src/helpers/scheduleParser.ts).
 */
module ScheduleDescription {
  import opened JsBuiltins
  import opened ScheduleParser
  import opened ScheduleEvaluator

  const DayNames: seq<string> := ["Sunday", "Monday", "Tuesday", "Wednesday", "Thursday", "Friday", "Saturday"]

  /** The name printed for one day number: `dayNames[dayNum]`, with -1 and -2 as the two
      groups; an index outside the table is `undefined`, which `join` prints as "". */
  function DayName(n: Num): string {
    if n == Int(-1) then "weekdays"
    else if n == Int(-2) then "weekends"
    else if n.Int? && 0 <= n.i < 7 then DayNames[n.i]
    else ""
  }

  /** `describeDayRule`. */
  function DescribeDayRule(value: string): string {
    if value == "" then "any day"
    else
      var numbers := DayNumbers(value);
      Join(seq(|numbers|, k requires 0 <= k < |numbers| => DayName(numbers[k])), ", ")
  }

  /**
   * `formatTimeForDisplay`: `undefined` throws on `.split`; the hour is printed on
   * the 12-hour clock (`hours % 12 || 12`, so 0, 12 and NaN print as 12), the
   * minutes only when positive, and the period is PM from hour 12 on.
   */
  function FormatTimeForDisplay(timeStr: Option<string>): Result<string> {
    match timeStr
    case None => Throws
    case Some(s) =>
      var parts := Split(s, ':');
      var hours := ParseInt(parts[0]);
      var minutes := if |parts| >= 2 then ParseInt(parts[1]) else NaN;
      var hour := if hours.NaN? || JsRem(hours.i, 12) == 0 then 12 else JsRem(hours.i, 12);
      var period := if hours.Int? && hours.i >= 12 then "PM" else "AM";
      var minuteStr := if minutes.Int? && minutes.i > 0 then ":" + PadStart2(NatToString(minutes.i)) else "";
      Ok(IntToString(hour) + minuteStr + " " + period)
  }

  /** `describeTimeRule`. */
  function DescribeTimeRule(value: string): Result<string> {
    if value == "" then Ok("any time")
    else
      var operator := OperatorOf(value);
      var timeStr := TimeTextOf(value);
      if operator == "between" then
        match timeStr
        case None => Throws
        case Some(ts) =>
          var pieces := Split(ts, '-');
          var start := FormatTimeForDisplay(Some(pieces[0]));
          var end := FormatTimeForDisplay(if |pieces| >= 2 then Some(pieces[1]) else None);
          if start.Throws? || end.Throws? then Throws
          else Ok("between " + start.value + " and " + end.value)
      else
        match FormatTimeForDisplay(timeStr)
        case Throws => Throws
        case Ok(timeDisplay) =>
          if operator in {"before", "after", "until", "from"} then Ok(operator + " " + timeDisplay)
          else Ok(timeDisplay)
  }

  /** `describeRule`: the switch over the rule's type. */
  function DescribeRule(r: ScheduleRule): Result<string>
    decreases r, 2, 0
  {
    match r.kind
    case DayType => Ok(DescribeDayRule(r.value))
    case TimeType => DescribeTimeRule(r.value)
    case DayTimeType => DescribeDayTimeRule(r)
    case NotType =>
      // `describeRule(undefined)` reads `.type` of undefined and throws.
      if |r.rules| == 0 then Throws
      else
        (match DescribeRule(r.rules[0])
         case Throws => Throws
         case Ok(inner) => Ok("Not " + inner))
    case AndType =>
      (match AllOk(DescribeChildren(r))
       case Throws => Throws
       case Ok(parts) => Ok(Join(parts, " and ")))
    case OrType =>
      match AllOk(DescribeChildren(r))
      case Throws => Throws
      case Ok(parts) => Ok(Join(parts, " or "))
  }

  /** `rules.map(describeRule)`: the description of every child, in order. */
  function DescribeChildren(r: ScheduleRule): (d: seq<Result<string>>)
    ensures |d| == |r.rules|
    decreases r, 0, 0
  {
    seq(|r.rules|, j requires 0 <= j < |r.rules| => DescribeRule(r.rules[j]))
  }

  /** The strings of a list of results, or `Throws` if any of them threw: `map` runs
      every call, and the first that throws ends the whole description. */
  function AllOk(results: seq<Result<string>>): (d: Result<seq<string>>)
    ensures d.Ok? <==> forall k :: 0 <= k < |results| ==> results[k].Ok?
    ensures d.Ok? ==> |d.value| == |results| && forall k :: 0 <= k < |results| ==> d.value[k] == results[k].value
  {
    if |results| == 0 then Ok([])
    else
      match results[0]
      case Throws => Throws
      case Ok(first) =>
        match AllOk(results[1..])
        case Throws => Throws
        case Ok(rest) => Ok([first] + rest)
  }

  /** `describeDayTimeRule`: "<time> on <day>"; the day is described first. */
  function DescribeDayTimeRule(r: ScheduleRule): Result<string>
    decreases r, 1, 0
  {
    if |r.rules| == 0 then Ok("any time")
    else
      match DescribeRule(r.rules[0])
      case Throws => Throws
      case Ok(dayDesc) =>
        match DescribeTimeRule(r.value)
        case Throws => Throws
        case Ok(timeDesc) => Ok(timeDesc + " on " + dayDesc)
  }

  /** `getScheduleDescription`. */
  function GetScheduleDescription(scheduleText: string): Result<string> {
    if Trim(scheduleText) == "" then Ok("Always available")
    else
      match Parse(scheduleText)
      case None => Ok("Invalid schedule format")
      case Some(rule) => DescribeRule(rule)
  }

  // ---------------------------------------------------------------------
  // The 12-hour display of a clock text.
  // ---------------------------------------------------------------------

  /** The hour a 24-hour clock hour shows on the 12-hour clock. */
  function Hour12(hour: nat): (r: nat)
    ensures 1 <= r <= 12
    ensures r % 12 == hour % 12
  {
    if hour % 12 == 0 then 12 else hour % 12
  }

  /** The half of the day an hour falls in. */
  function Period(hour: nat): string {
    if hour < 12 then "AM" else "PM"
  }

  /** How a time of day is shown: "5 PM", "12 AM", "9:30 AM". */
  function ClockDisplay(hour: nat, minute: nat): string {
    NatToString(Hour12(hour)) + MinutePart(minute) + " " + Period(hour)
  }

  /** `formatTimeForDisplay` shows a clock text on the 12-hour clock. */
  lemma FormatClock(c: string)
    requires IsClockText(c)
    ensures FormatTimeForDisplay(Some(c)) == Ok(ClockDisplay(ClockHour(c), ClockMinute(c)))
  {
    ClockSplit(c);
    ParseIntDigits(c[..2]);
    ParseIntDigits(c[3..]);
  }

  lemma DigitsLowerText(s: string)
    requires AllDigits(s)
    ensures IsLowerText(s)
  {
    forall i | 0 <= i < |s| ensures !('A' <= s[i] <= 'Z') {
      assert IsDigit(s[i]);
    }
  }

  lemma LowerTextAppend(a: string, b: string)
    requires IsLowerText(a) && IsLowerText(b)
    ensures IsLowerText(a + b)
  {
    forall i | 0 <= i < |a + b| ensures !('A' <= (a + b)[i] <= 'Z') {
      if i >= |a| {
        assert (a + b)[i] == b[i - |a|];
      }
    }
  }

  /** Lower-casing a display touches only its period. */
  lemma LowerDisplay(a: string, period: string)
    requires IsLowerText(a)
    requires period == "AM" || period == "PM"
    ensures ToLower(a + " " + period) == a + " " + (if period == "AM" then "am" else "pm")
  {
    var lower := if period == "AM" then "am" else "pm";
    var s := a + " " + period;
    forall i | 0 <= i < |s| ensures ToLower(s)[i] == (a + " " + lower)[i] {
      if i < |a| {
        assert s[i] == a[i];
      }
    }
  }

  /** The minutes of a display: nothing on the hour, else a colon and two digits. */
  function MinutePart(minute: nat): string {
    if minute == 0 then "" else ":" + Pad2(minute)
  }

  /** Lower-cased, a display spells its hour, its minutes when not zero, and "am" or "pm". */
  lemma LowerClockDisplay(hour: nat, minute: nat)
    ensures ToLower(ClockDisplay(hour, minute))
            == NatToString(Hour12(hour)) + MinutePart(minute) + " " + (if hour < 12 then "am" else "pm")
  {
    var hourText := NatToString(Hour12(hour));
    DigitsLowerText(hourText);
    if minute != 0 {
      Pad2Value(minute);
      DigitsLowerText(Pad2(minute));
      assert IsLowerText(":");
      LowerTextAppend(":", Pad2(minute));
    }
    LowerTextAppend(hourText, MinutePart(minute));
    assert ClockDisplay(hour, minute) == hourText + MinutePart(minute) + " " + Period(hour);
    LowerDisplay(hourText + MinutePart(minute), Period(hour));
  }

  /** An hour of the 12-hour clock is written with one or two digits. */
  lemma Hour12Text(hour: nat)
    ensures 1 <= |NatToString(Hour12(hour))| <= 2
  {
    var h12 := Hour12(hour);
    if h12 >= 10 {
      assert NatToString(h12) == NatToString(h12 / 10) + [DigitChar(h12 % 10)];
    }
  }

  /** Lower-cased, the display of a time of day parses back to that time of day. */
  lemma ParseDisplay(hour: nat, minute: nat)
    requires hour <= 23 && minute <= 59
    ensures ParseTimeValue(ToLower(ClockDisplay(hour, minute))) == Some(ClockText(hour, minute))
  {
    var lower := if hour < 12 then "am" else "pm";
    var minuteText := if minute == 0 then "" else Pad2(minute);
    HourBack(hour);
    LowerClockDisplay(hour, minute);
    Hour12Text(hour);
    Pad2Value(minute);
    assert (if minuteText == "" then "" else ":" + minuteText) == MinutePart(minute);
    DisplayParses(ToLower(ClockDisplay(hour, minute)), NatToString(Hour12(hour)), minuteText, lower, hour, minute);
  }

  /** The 12-hour clock hour with its lower-case period gives back the hour. */
  lemma HourBack(hour: nat)
    requires hour <= 23
    ensures To24Hour(Hour12(hour), if hour < 12 then "am" else "pm") == hour
  {
    if hour < 12 {
      assert hour % 12 == hour;
    } else {
      assert hour % 12 == hour - 12;
    }
  }

  /** A lower-cased display, in pieces, parses to the time it shows. */
  lemma DisplayParses(text: string, hourText: string, minuteText: string, lower: string, hour: nat, minute: nat)
    requires 1 <= |hourText| <= 2 && AllDigits(hourText)
    requires minuteText == "" || (|minuteText| == 2 && AllDigits(minuteText))
    requires lower == "am" || lower == "pm"
    requires text == hourText + (if minuteText == "" then "" else ":" + minuteText) + " " + lower
    requires To24Hour(DigitsValue(hourText), lower) == hour <= 23
    requires (if minuteText == "" then 0 else DigitsValue(minuteText)) == minute <= 59
    ensures ParseTimeValue(text) == Some(ClockText(hour, minute))
  {
    assert IsBlank(" ");
    ParseTimeValueAccepts(hourText, minuteText, " ", lower);
  }

  /**
   * The display reads back: lower-cased, as a schedule text is before parsing, the
   * display of a clock text parses to that same clock text.
   */
  lemma DisplayReadsBack(c: string)
    requires IsClockText(c)
    ensures FormatTimeForDisplay(Some(c)).Ok?
    ensures ParseTimeValue(ToLower(FormatTimeForDisplay(Some(c)).value)) == Some(c)
  {
    FormatClock(c);
    ParseDisplay(ClockHour(c), ClockMinute(c));
    ClockTextOf(c);
  }

  /** Midnight shows as "12 AM", noon as "12 PM", 17:00 as "5 PM" and 09:30 as "9:30 AM". */
  lemma DisplayExamples()
    ensures ClockDisplay(0, 0) == "12 AM" && ClockDisplay(12, 0) == "12 PM"
    ensures ClockDisplay(17, 0) == "5 PM" && ClockDisplay(9, 30) == "9:30 AM"
  {
    TwelveDisplays();
    assert NatToString(5) == "5";
    HalfPastNine();
  }

  /** Midnight and noon both show hour 12. */
  lemma TwelveDisplays()
    ensures ClockDisplay(0, 0) == "12 AM" && ClockDisplay(12, 0) == "12 PM"
  {
    assert NatToString(12) == "12" by {
      assert NatToString(1) == "1";
    }
  }

  /** A time with minutes shows them after a colon. */
  lemma HalfPastNine()
    ensures ClockDisplay(9, 30) == "9:30 AM"
  {
    assert NatToString(9) == "9";
    Pad2Digits(30);
    assert MinutePart(30) == ":30";
  }

  // ---------------------------------------------------------------------
  // Descriptions of rules.
  // ---------------------------------------------------------------------

  /** The names a list of day numbers prints as. */
  function DayNameList(days: seq<nat>): (names: seq<string>)
    requires forall k :: 0 <= k < |days| ==> days[k] <= 6
    ensures |names| == |days|
    ensures forall k :: 0 <= k < |days| ==> names[k] == DayNames[days[k]]
  {
    seq(|days|, k requires 0 <= k < |days| => DayNames[days[k]])
  }

  /** Day numbers read back from a list of days print as those days' names. */
  lemma DayNamesOfNumbers(numbers: seq<Num>, days: seq<nat>)
    requires forall k :: 0 <= k < |days| ==> days[k] <= 6
    requires |numbers| == |days| && forall k :: 0 <= k < |days| ==> numbers[k] == Int(days[k])
    ensures seq(|numbers|, k requires 0 <= k < |numbers| => DayName(numbers[k])) == DayNameList(days)
  {
  }

  /** A day rule built from a list of days is described by the days' names, comma-separated. */
  lemma DescribeDayList(days: seq<nat>)
    requires |days| > 0
    requires forall k :: 0 <= k < |days| ==> days[k] <= 6
    ensures DescribeRule(ScheduleRule(DayType, DayListText(days), [])) == Ok(Join(DayNameList(days), ", "))
  {
    var text := DayListText(days);
    DayNumbersOfList(days);
    DayNamesOfNumbers(DayNumbers(text), days);
  }

  /** Describing a `between` rule throws, for the same reason evaluating one does. */
  lemma DescribeBetweenThrows(rest: string)
    ensures DescribeTimeRule("between-" + rest) == Throws
  {
    var value := "between-" + rest;
    assert value == "between" + ['-'] + rest;
    assert '-' !in "between";
    SplitFirst("between", '-', rest);
    assert OperatorOf(value) == "between";
    var ts := Split(rest, '-')[0];
    assert TimeTextOf(value) == Some(ts);
    SplitNoSeparator(ts, '-');
  }

  /** `before`, `after`, `until` and `from` rules read as the keyword and the 12-hour time. */
  lemma DescribeKeyword(keyword: string, c: string)
    requires keyword in {"before", "after", "until", "from"}
    requires IsClockText(c)
    ensures DescribeRule(ScheduleRule(TimeType, keyword + "-" + c, []))
            == Ok(keyword + " " + ClockDisplay(ClockHour(c), ClockMinute(c)))
  {
    KeywordTimeValue(keyword, c);
    var value := keyword + "-" + c;
    assert OperatorOf(value) == keyword;
    assert TimeTextOf(value) == Some(c);
    FormatClock(c);
  }

  /**
   * A `dayTime` rule "HH:MM-HH:MM" is described by its END time only: the start time
   * lands in the operator slot, which is no keyword, so only the time after it is shown.
   */
  lemma DescribeDayTimeShowsEnd(c1: string, c2: string, day: ScheduleRule)
    requires IsClockText(c1) && IsClockText(c2)
    ensures DescribeRule(ScheduleRule(DayTimeType, c1 + "-" + c2, [day]))
            == match DescribeRule(day)
               case Throws => Throws
               case Ok(dayDesc) => Ok(ClockDisplay(ClockHour(c2), ClockMinute(c2)) + " on " + dayDesc)
  {
    var value := c1 + "-" + c2;
    ClockTextChars(c1);
    ClockTextChars(c2);
    assert value == c1 + ['-'] + c2;
    SplitPair(c1, '-', c2);
    assert OperatorOf(value) == c1;
    assert TimeTextOf(value) == Some(c2);
    assert c1 !in {"before", "after", "until", "from", "between"} by {
      assert c1[2] == ':';
    }
    FormatClock(c2);
  }

  /** `not X` reads "Not " and the description of X. */
  lemma DescribeNot(x: ScheduleRule)
    ensures DescribeRule(ScheduleRule(NotType, "", [x]))
            == if DescribeRule(x).Ok? then Ok("Not " + DescribeRule(x).value) else Throws
  {
  }

  /** `X and Y` and `X or Y` read as the two descriptions joined by the connective. */
  lemma DescribeConnective(kind: RuleType, a: ScheduleRule, b: ScheduleRule)
    requires kind == AndType || kind == OrType
    requires DescribeRule(a).Ok? && DescribeRule(b).Ok?
    ensures DescribeRule(ScheduleRule(kind, "", [a, b]))
            == Ok(DescribeRule(a).value + (if kind == AndType then " and " else " or ") + DescribeRule(b).value)
  {
    var r := ScheduleRule(kind, "", [a, b]);
    var results := DescribeChildren(r);
    assert results == [DescribeRule(a), DescribeRule(b)];
    var parts := AllOk(results).value;
    assert parts == [DescribeRule(a).value, DescribeRule(b).value];
    assert Join(parts, if kind == AndType then " and " else " or ")
           == parts[0] + (if kind == AndType then " and " else " or ") + Join(parts[1..], if kind == AndType then " and " else " or ");
  }

  /** The description of a parsed time value throws exactly when it is a `between`. */
  lemma DescribeTimeValue(v: string)
    requires IsTimeValue(v)
    ensures DescribeTimeRule(v).Throws? <==> Split(v, '-')[0] == "between"
  {
    var pieces := Split(v, '-');
    if pieces[0] == "between" {
      assert v == Join(pieces, "-") by {
        JoinSplit(v, '-');
      }
      assert v == "between-" + Join(pieces[1..], "-");
      DescribeBetweenThrows(Join(pieces[1..], "-"));
    } else {
      assert OperatorOf(v) == pieces[0];
      assert TimeTextOf(v) == Some(pieces[1]);
      FormatClock(pieces[1]);
    }
  }

  /** `X and Y` and `X or Y` throw exactly when describing X or Y does. */
  lemma DescribeConnectiveThrows(r: ScheduleRule)
    requires r.kind == AndType || r.kind == OrType
    requires |r.rules| == 2
    ensures DescribeRule(r).Throws? <==> DescribeRule(r.rules[0]).Throws? || DescribeRule(r.rules[1]).Throws?
  {
    var d := DescribeChildren(r);
    assert d == [DescribeRule(r.rules[0]), DescribeRule(r.rules[1])];
    assert AllOk(d).Ok? <==> d[0].Ok? && d[1].Ok?;
  }

  /**
   * A parsed rule's description throws exactly when the rule holds a `between`:
   * unlike evaluation, which may stop early, the description visits every child.
   */
  lemma {:induction false} DescribeThrowsIffBetween(r: ScheduleRule)
    requires WellFormed(r)
    ensures DescribeRule(r).Throws? <==> HasBetween(r)
    decreases r
  {
    match r.kind
    case DayType =>
    case TimeType =>
      DescribeTimeValue(r.value);
    case DayTimeType =>
    case NotType =>
      DescribeThrowsIffBetween(r.rules[0]);
      DescribeNotThrows(r);
      ChildrenBetween(r);
    case AndType =>
      ConnectiveThrowsIffBetween(r);
    case OrType =>
      ConnectiveThrowsIffBetween(r);
  }

  lemma {:induction false} ConnectiveThrowsIffBetween(r: ScheduleRule)
    requires (r.kind == AndType || r.kind == OrType) && WellFormed(r)
    ensures DescribeRule(r).Throws? <==> HasBetween(r)
    decreases r, 0
  {
    DescribeThrowsIffBetween(r.rules[0]);
    DescribeThrowsIffBetween(r.rules[1]);
    DescribeConnectiveThrows(r);
    ChildrenBetween(r);
  }

  /** `Not X` throws exactly when describing X does. */
  lemma DescribeNotThrows(r: ScheduleRule)
    requires r.kind == NotType && |r.rules| == 1
    ensures DescribeRule(r).Throws? <==> DescribeRule(r.rules[0]).Throws?
  {
  }

  /** A connective holds a `between` exactly when one of its one or two children does. */
  lemma ChildrenBetween(r: ScheduleRule)
    requires r.kind != TimeType && 1 <= |r.rules| <= 2
    ensures |r.rules| == 1 ==> (HasBetween(r) <==> HasBetween(r.rules[0]))
    ensures |r.rules| == 2 ==> (HasBetween(r) <==> HasBetween(r.rules[0]) || HasBetween(r.rules[1]))
  {
    if |r.rules| == 2 && HasBetween(r) {
      var i :| 0 <= i < |r.rules| && HasBetween(r.rules[i]);
      assert i == 0 || i == 1;
    }
  }

  /** Text that parses is described by its rule. */
  lemma DescribeParsed(scheduleText: string)
    requires Parse(scheduleText).Some?
    ensures GetScheduleDescription(scheduleText) == DescribeRule(Parse(scheduleText).value)
  {
    TrimEmptyIffBlank(scheduleText);
    if IsBlank(scheduleText) {
      ParseBlank(scheduleText);
    }
  }

  /** Blank schedule text reads "Always available". */
  lemma DescribeBlank(scheduleText: string)
    requires IsBlank(scheduleText)
    ensures GetScheduleDescription(scheduleText) == Ok("Always available")
  {
    TrimEmptyIffBlank(scheduleText);
  }

  /**
   * Non-blank text reads "Invalid schedule format" when it does not parse, and
   * the description of schedule text throws exactly when its rule holds a `between`.
   */
  lemma DescribeText(scheduleText: string)
    requires !IsBlank(scheduleText)
    ensures GetScheduleDescription(scheduleText) == Ok("Invalid schedule format") <== Parse(scheduleText).None?
    ensures GetScheduleDescription(scheduleText).Throws?
            <==> Parse(scheduleText).Some? && HasBetween(Parse(scheduleText).value)
  {
    TrimEmptyIffBlank(scheduleText);
    ParseWellFormed(scheduleText);
    if Parse(scheduleText).Some? {
      DescribeThrowsIffBetween(Parse(scheduleText).value);
    }
  }
}
