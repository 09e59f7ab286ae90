/**
 * The schedule language read as its own comments describe it, beside the model of
 * the code as written.
 *
 * `between`: the parser stores "between 10pm and 2am" as "between-22:00-02:00";
 * the source splits that value with `split('-', 2)`, which keeps only the start
 * time, so the end time is `undefined` and both readers throw (BetweenThrows,
 * DescribeBetweenThrows). Splitting at every '-' gives the range the comment in
 * `evaluateTimeRule` describes, including ranges that wrap past midnight.
 *
 * Day+time ranges: the header comment reads "9am-5pm weekdays" as 9 AM to 5 PM on
 * weekdays, but the day list is tried first and always wins (DayTimeNeedsDays),
 * and a day+time rule's time would be checked against its start time as an
 * operator. Trying the range first and reading the value as a range gives the
 * documented meaning.
 */
module ScheduleCorrections {
  import opened JsBuiltins
  import opened ScheduleParser
  import opened ScheduleEvaluator
  import opened ScheduleDescription
  import opened ScheduleExamples

  /** Piece `k` of the value split at every '-', or `undefined`. */
  function PieceOf(value: string, k: nat): Option<string> {
    var pieces := Split(value, '-');
    if k < |pieces| then Some(pieces[k]) else None
  }

  /** `evaluateTimeRule` with the `between` range read from the whole value. */
  function EvaluateTimeRuleIntended(value: string, t: Instant): Result<bool> {
    if value != "" && OperatorOf(value) == "between" then
      InRange(TimeStringToMinutes(PieceOf(value, 1)), TimeStringToMinutes(PieceOf(value, 2)),
              Int(MinuteOfDay(t)))
    else EvaluateTimeRule(value, t)
  }

  /** `describeTimeRule` with the `between` range read from the whole value. */
  function DescribeTimeRuleIntended(value: string): Result<string> {
    if value != "" && OperatorOf(value) == "between" then
      var start := FormatTimeForDisplay(PieceOf(value, 1));
      var end := FormatTimeForDisplay(PieceOf(value, 2));
      if start.Throws? || end.Throws? then Throws
      else Ok("between " + start.value + " and " + end.value)
    else DescribeTimeRule(value)
  }

  /** The pieces of a parsed `between` value. */
  lemma BetweenPieces(c1: string, c2: string)
    requires IsClockText(c1) && IsClockText(c2)
    ensures var value := "between-" + c1 + "-" + c2;
            OperatorOf(value) == "between" && PieceOf(value, 1) == Some(c1) && PieceOf(value, 2) == Some(c2)
  {
    var value := "between-" + c1 + "-" + c2;
    BetweenTimeValue(c1, c2);
    ClockTextChars(c1);
    assert value == "between" + ['-'] + (c1 + "-" + c2);
    assert '-' !in "between";
    SplitFirst("between", '-', c1 + "-" + c2);
  }

  /** A value whose operator is `between` and whose second and third pieces are clock texts. */
  lemma BetweenFromPieces(value: string, c1: string, c2: string, t: Instant)
    requires IsClockText(c1) && IsClockText(c2)
    requires value != "" && OperatorOf(value) == "between"
    requires PieceOf(value, 1) == Some(c1) && PieceOf(value, 2) == Some(c2)
    ensures var m, s, e := MinuteOfDay(t), ClockMinutes(c1), ClockMinutes(c2);
            EvaluateTimeRuleIntended(value, t) == Ok(if s <= e then s <= m <= e else s <= m || m <= e)
  {
    var m, s, e := MinuteOfDay(t), ClockMinutes(c1), ClockMinutes(c2);
    ClockTextMinutes(c1);
    ClockTextMinutes(c2);
    InRangeMinutes(s, e, m);
  }

  /**
   * A `between` rule holds from its start to its end time inclusive; when the start
   * is later than the end, the range wraps past midnight.
   */
  lemma BetweenIntended(c1: string, c2: string, t: Instant)
    requires IsClockText(c1) && IsClockText(c2)
    ensures var m, s, e := MinuteOfDay(t), ClockMinutes(c1), ClockMinutes(c2);
            EvaluateTimeRuleIntended("between-" + c1 + "-" + c2, t)
            == Ok(if s <= e then s <= m <= e else s <= m || m <= e)
  {
    BetweenPieces(c1, c2);
    BetweenFromPieces("between-" + c1 + "-" + c2, c1, c2, t);
  }

  /** Rules other than `between` are read as before. */
  lemma OtherTimeRulesUnchanged(value: string, t: Instant)
    requires value == "" || OperatorOf(value) != "between"
    ensures EvaluateTimeRuleIntended(value, t) == EvaluateTimeRule(value, t)
    ensures DescribeTimeRuleIntended(value) == DescribeTimeRule(value)
  {
  }

  /** A `between` rule is described by its two times on the 12-hour clock. */
  lemma BetweenDescribedIntended(c1: string, c2: string)
    requires IsClockText(c1) && IsClockText(c2)
    ensures DescribeTimeRuleIntended("between-" + c1 + "-" + c2)
            == Ok("between " + ClockDisplay(ClockHour(c1), ClockMinute(c1))
                  + " and " + ClockDisplay(ClockHour(c2), ClockMinute(c2)))
  {
    BetweenPieces(c1, c2);
    FormatClock(c1);
    FormatClock(c2);
  }

  /** "between 10pm and 2am", read as intended: late evening and small hours, not midday. */
  lemma LateNightIntended(t: Instant)
    ensures EvaluateTimeRuleIntended("between-22:00-02:00", t)
            == Ok(MinuteOfDay(t) >= 22 * 60 || MinuteOfDay(t) <= 2 * 60)
  {
    LateNightClocks();
    BetweenIntended(ClockText(22, 0), ClockText(2, 0), t);
    ClockTextShape(22, 0);
    ClockTextShape(2, 0);
  }

  lemma LateNightClocks()
    ensures "between-" + ClockText(22, 0) + "-" + ClockText(2, 0) == "between-22:00-02:00"
  {
    Pad2Digits(22);
    Pad2Digits(2);
    Pad2Digits(0);
  }

  /** "between 10pm and 2am", described as intended. */
  lemma LateNightDescribedIntended()
    ensures DescribeTimeRuleIntended("between-" + ClockText(22, 0) + "-" + ClockText(2, 0))
            == Ok("between " + ClockDisplay(22, 0) + " and " + ClockDisplay(2, 0))
    ensures ClockDisplay(22, 0) == "10 PM" && ClockDisplay(2, 0) == "2 AM"
  {
    ClockTextShape(22, 0);
    ClockTextShape(2, 0);
    BetweenDescribedIntended(ClockText(22, 0), ClockText(2, 0));
    LateNightDisplays();
  }

  lemma LateNightDisplays()
    ensures ClockDisplay(22, 0) == "10 PM" && ClockDisplay(2, 0) == "2 AM"
  {
    assert NatToString(10) == "10" by {
      assert NatToString(1) == "1";
    }
    assert NatToString(2) == "2";
  }

  // ---------------------------------------------------------------------
  // "9am-5pm weekdays": the hours are meant to count.
  // ---------------------------------------------------------------------

  /**
   * `parseTokens` with the day+time case tried before the plain day list, which
   * otherwise always wins (DayTimeNeedsDays).
   */
  function ParseSimpleIntended(tokens: seq<string>): Option<ScheduleRule> {
    var dayTime := DayTimeExpression(tokens);
    if dayTime.Some? then dayTime else ParseSimple(tokens)
  }

  /** `evaluateDayTimeRule` with the rule's "HH:MM-HH:MM" read as a range. */
  function EvaluateDayTimeRuleIntended(r: ScheduleRule, t: Instant): Result<bool>
    decreases r, 1, 0
  {
    if |r.rules| == 0 then Ok(true)
    else
      match EvaluateRuleIntended(r.rules[0], t)
      case Throws => Throws
      case Ok(dayMatches) => if !dayMatches then Ok(false) else EvaluateTimeRuleIntended("between-" + r.value, t)
  }

  lemma FivePm()
    ensures ParseTimeValue("5pm") == Some(ClockText(17, 0))
  {
    HourValueIs("5pm", "5", "pm", 17);
  }

  /** A one-digit hour with its "am" or "pm" is a whole clock match. */
  lemma ClockWithSuffix(s: string)
    requires |s| >= 3 && IsDigit(s[0]) && (s[1..3] == "am" || s[1..3] == "pm")
    ensures ClockPatternLength(s) == 3
  {
    assert s[1] == s[1..3][0];
  }

  /** "Ham-Hpm" at the start of the text is matched as a range. */
  lemma SuffixRangeAt(a: string, b: string, rest: string)
    requires |a| == 3 && IsDigit(a[0]) && (a[1..] == "am" || a[1..] == "pm")
    requires |b| == 3 && IsDigit(b[0]) && (b[1..] == "am" || b[1..] == "pm")
    ensures RangeMatchAt(a + "-" + b + rest) == Some(RangeMatch(a + "-" + b, a, b))
  {
    var s := a + "-" + b + rest;
    assert s[1..3] == a[1..];
    ClockWithSuffix(s);
    assert s[3..][0] == '-';
    assert WhitespaceRun(s[3..]) == 0;
    assert s[4..] == b + rest;
    assert (b + rest)[0] == b[0];
    assert WhitespaceRun(s[4..]) == 0;
    assert (b + rest)[1..3] == b[1..];
    ClockWithSuffix(b + rest);
    assert s[..7] == a + "-" + b && s[..3] == a && s[4..7] == b;
  }

  /** The leftmost match is the one at the start when there is one. */
  lemma RangeAtStartFound(s: string)
    requires RangeMatchAt(s).Some?
    ensures FindTimeRange(s) == RangeMatchAt(s)
  {
  }

  lemma WeekdaysPieces()
    ensures "9am-5pm weekdays" == "9am" + "-" + "5pm" + " weekdays"
    ensures "9am" + "-" + "5pm" == "9am-5pm"
  {
  }

  /** The range in "9am-5pm weekdays" is "9am-5pm". */
  lemma WeekdaysRangeFound()
    ensures FindTimeRange("9am-5pm weekdays") == Some(RangeMatch("9am-5pm", "9am", "5pm"))
  {
    WeekdaysPieces();
    assert "9am"[1..] == "am" && "5pm"[1..] == "pm";
    SuffixRangeAt("9am", "5pm", " weekdays");
    RangeAtStartFound("9am-5pm weekdays");
  }

  /** Only "weekdays" is left once the tokens inside the range are dropped. */
  lemma WeekdaysRangeKept()
    ensures TokensNotIn(["9am-5pm", "weekdays"], "9am-5pm") == ["weekdays"]
  {
    assert Contains("9am-5pm", "9am-5pm");
    ContainsNoLonger("9am-5pm", "weekdays");
    assert ["9am-5pm", "weekdays"][1..] == ["weekdays"];
    assert ["weekdays"][1..] == [];
  }

  lemma WeekdaysDays()
    ensures DayExpression(["weekdays"]) == Some(ScheduleRule(DayType, DayListText([1, 2, 3, 4, 5]), []))
  {
    CollectSingle(DayValues, "weekdays");
    WeekdayWords();
  }

  /** The day+time rule assembled from its found range, times and days. */
  lemma DayTimeFound(tokens: seq<string>, m: RangeMatch, start: string, end: string, day: ScheduleRule)
    requires FindTimeRange(Join(tokens, " ")) == Some(m)
    requires ParseTimeValue(m.start) == Some(start) && ParseTimeValue(m.end) == Some(end)
    requires DayExpression(TokensNotIn(tokens, m.whole)) == Some(day)
    ensures ParseSimpleIntended(tokens) == Some(ScheduleRule(DayTimeType, start + "-" + end, [day]))
  {
  }

  /** Tried first, the day+time case reads "9am-5pm weekdays" as 09:00 to 17:00 on weekdays. */
  lemma WeekdayHoursParseIntended()
    ensures ParseSimpleIntended(["9am-5pm", "weekdays"])
            == Some(ScheduleRule(DayTimeType, ClockText(9, 0) + "-" + ClockText(17, 0),
                                 [ScheduleRule(DayType, DayListText([1, 2, 3, 4, 5]), [])]))
  {
    WeekdaysText();
    WeekdaysRangeFound();
    ParseTimeValueMorning();
    FivePm();
    WeekdaysRangeKept();
    WeekdaysDays();
    DayTimeFound(["9am-5pm", "weekdays"], RangeMatch("9am-5pm", "9am", "5pm"), ClockText(9, 0), ClockText(17, 0),
                 ScheduleRule(DayType, DayListText([1, 2, 3, 4, 5]), []));
  }

  lemma WeekdaysText()
    ensures Join(["9am-5pm", "weekdays"], " ") == "9am-5pm weekdays"
  {
  }

  /** 09:00 to 17:00, read as a range. */
  lemma NineToFive(t: Instant)
    ensures EvaluateTimeRuleIntended("between-" + (ClockText(9, 0) + "-" + ClockText(17, 0)), t)
            == Ok(9 * 60 <= MinuteOfDay(t) <= 17 * 60)
  {
    ClockTextShape(9, 0);
    ClockTextShape(17, 0);
    assert "between-" + (ClockText(9, 0) + "-" + ClockText(17, 0)) == "between-" + ClockText(9, 0) + "-" + ClockText(17, 0);
    BetweenIntended(ClockText(9, 0), ClockText(17, 0), t);
  }

  /** Read as intended, "9am-5pm weekdays" holds from 9 AM to 5 PM, Monday to Friday. */
  lemma WeekdayHoursIntended(t: Instant)
    ensures EvaluateDayTimeRuleIntended(
              ScheduleRule(DayTimeType, ClockText(9, 0) + "-" + ClockText(17, 0),
                           [ScheduleRule(DayType, DayListText([1, 2, 3, 4, 5]), [])]), t)
            == Ok(1 <= t.weekday <= 5 && 9 * 60 <= MinuteOfDay(t) <= 17 * 60)
  {
    DayRuleHolds([1, 2, 3, 4, 5], t);
    assert t.weekday in [1, 2, 3, 4, 5] <==> 1 <= t.weekday <= 5;
    NineToFive(t);
  }

  // ---------------------------------------------------------------------
  // Both corrections together: the parser tries the day+time range first,
  // and the evaluator reads `between` and day+time values as ranges.
  // ---------------------------------------------------------------------

  /** `parseTokens` with the day+time case tried before the day list. */
  function ParseTokensIntended(tokens: seq<string>): Option<ScheduleRule>
    decreases |tokens|, 1
  {
    if |tokens| == 0 then None
    else
      var inner := if tokens[0] == "not" then ParseTokensIntended(tokens[1..]) else None;
      if inner.Some? then Some(ScheduleRule(NotType, "", [inner.value]))
      else
        var andRule := ParseConnectiveIntended(tokens, "and", AndType);
        if andRule.Some? then andRule
        else
          var orRule := ParseConnectiveIntended(tokens, "or", OrType);
          if orRule.Some? then orRule
          else ParseSimpleIntended(tokens)
  }

  function ParseConnectiveIntended(tokens: seq<string>, word: string, kind: RuleType): Option<ScheduleRule>
    decreases |tokens|, 0
  {
    var index := IndexOfToken(tokens, word);
    if index < 0 then None
    else
      var left := ParseTokensIntended(tokens[..index]);
      var right := ParseTokensIntended(tokens[index + 1..]);
      if left.Some? && right.Some? then Some(ScheduleRule(kind, "", [left.value, right.value]))
      else None
  }

  /** `parse` over the corrected recursive descent. */
  function ParseIntended(scheduleText: string): Option<ScheduleRule> {
    if Trim(scheduleText) == "" then None
    else ParseTokensIntended(Tokenize(ToLower(scheduleText)))
  }

  /** `evaluate` with both time readers corrected. */
  function EvaluateRuleIntended(r: ScheduleRule, t: Instant): Result<bool>
    decreases r, 2, 0
  {
    match r.kind
    case DayType => Ok(EvaluateDayRule(r.value, t))
    case TimeType => EvaluateTimeRuleIntended(r.value, t)
    case DayTimeType => EvaluateDayTimeRuleIntended(r, t)
    case NotType => if |r.rules| == 0 then Ok(false) else Negate(EvaluateRuleIntended(r.rules[0], t))
    case AndType => EveryIntended(r, 0, t)
    case OrType => AnyIntended(r, 0, t)
  }

  function EveryIntended(r: ScheduleRule, i: nat, t: Instant): Result<bool>
    decreases r, 0, |r.rules| - i
  {
    if i >= |r.rules| then Ok(true)
    else
      match EvaluateRuleIntended(r.rules[i], t)
      case Throws => Throws
      case Ok(b) => if !b then Ok(false) else EveryIntended(r, i + 1, t)
  }

  function AnyIntended(r: ScheduleRule, i: nat, t: Instant): Result<bool>
    decreases r, 0, |r.rules| - i
  {
    if i >= |r.rules| then Ok(false)
    else
      match EvaluateRuleIntended(r.rules[i], t)
      case Throws => Throws
      case Ok(b) => if b then Ok(true) else AnyIntended(r, i + 1, t)
  }

  /** `isPartnerAvailable` with both corrections. */
  function IsPartnerAvailableIntended(scheduleText: string, t: Instant): Result<bool> {
    match ParseIntended(scheduleText)
    case None => Ok(true)
    case Some(r) => EvaluateRuleIntended(r, t)
  }

  /** A day+time value: two clock texts joined by '-'. */
  predicate IsRangeValue(v: string) {
    var pieces := Split(v, '-');
    |pieces| == 2 && IsClockText(pieces[0]) && IsClockText(pieces[1])
  }

  /** What the corrected parser builds: what the parser builds, plus day+time rules. */
  predicate WellFormedIntended(r: ScheduleRule)
    decreases r
  {
    match r.kind
    case DayTimeType => |r.rules| == 1 && IsRangeValue(r.value) && WellFormedIntended(r.rules[0])
    case NotType => |r.rules| == 1 && WellFormedIntended(r.rules[0])
    case AndType => |r.rules| == 2 && WellFormedIntended(r.rules[0]) && WellFormedIntended(r.rules[1])
    case OrType => |r.rules| == 2 && WellFormedIntended(r.rules[0]) && WellFormedIntended(r.rules[1])
    case _ => WellFormed(r)
  }

  /** Some time rule in `r` is a `between` with a start and no end ("between 9pm"). */
  predicate HasOpenBetween(r: ScheduleRule)
    decreases r
  {
    || (r.kind == TimeType && |Split(r.value, '-')| == 2 && Split(r.value, '-')[0] == "between")
    || exists i :: 0 <= i < |r.rules| && HasOpenBetween(r.rules[i])
  }

  /** Day+time expressions build day+time rules over two clock texts and a day rule. */
  lemma DayTimeWellFormed(tokens: seq<string>)
    ensures DayTimeExpression(tokens).Some? ==> WellFormedIntended(DayTimeExpression(tokens).value)
  {
    if DayTimeExpression(tokens).Some? {
      var found := FindTimeRange(Join(tokens, " ")).value;
      var start := ParseTimeValue(found.start).value;
      var end := ParseTimeValue(found.end).value;
      ClockTextChars(start);
      ClockTextChars(end);
      SplitJoin([start, end], '-');
      assert Join([start, end], "-") == start + "-" + end;
      DayExpressionWellFormed(TokensNotIn(tokens, found.whole));
    }
  }

  /** Every rule the corrected parser returns is well formed in the corrected sense. */
  lemma {:induction false} ParsedWellFormedIntended(tokens: seq<string>)
    ensures ParseTokensIntended(tokens).Some? ==> WellFormedIntended(ParseTokensIntended(tokens).value)
    decreases |tokens|, 1
  {
    if |tokens| > 0 {
      if tokens[0] == "not" {
        ParsedWellFormedIntended(tokens[1..]);
      }
      ConnectiveWellFormedIntended(tokens, "and", AndType);
      ConnectiveWellFormedIntended(tokens, "or", OrType);
      DayTimeWellFormed(tokens);
      DayExpressionWellFormed(tokens);
      TimeExpressionWellFormed(tokens);
    }
  }

  lemma {:induction false} ConnectiveWellFormedIntended(tokens: seq<string>, word: string, kind: RuleType)
    requires kind == AndType || kind == OrType
    ensures ParseConnectiveIntended(tokens, word, kind).Some?
            ==> WellFormedIntended(ParseConnectiveIntended(tokens, word, kind).value)
    decreases |tokens|, 0
  {
    var index := IndexOfToken(tokens, word);
    if index >= 0 {
      ParsedWellFormedIntended(tokens[..index]);
      ParsedWellFormedIntended(tokens[index + 1..]);
    }
  }

  lemma {:induction false} EveryIntendedOk(r: ScheduleRule, i: nat, t: Instant)
    requires forall j :: i <= j < |r.rules| ==> EvaluateRuleIntended(r.rules[j], t).Ok?
    ensures EveryIntended(r, i, t).Ok?
    decreases |r.rules| - i
  {
    if i < |r.rules| {
      EveryIntendedOk(r, i + 1, t);
    }
  }

  lemma {:induction false} AnyIntendedOk(r: ScheduleRule, i: nat, t: Instant)
    requires forall j :: i <= j < |r.rules| ==> EvaluateRuleIntended(r.rules[j], t).Ok?
    ensures AnyIntended(r, i, t).Ok?
    decreases |r.rules| - i
  {
    if i < |r.rules| {
      AnyIntendedOk(r, i + 1, t);
    }
  }

  /** A two-piece value read back from its pieces. */
  lemma RangeValueJoin(v: string)
    requires IsRangeValue(v)
    ensures v == Split(v, '-')[0] + "-" + Split(v, '-')[1]
  {
    JoinSplit(v, '-');
    var pieces := Split(v, '-');
    assert Join(pieces, "-") == pieces[0] + "-" + Join(pieces[1..], "-");
  }

  /** A value that splits into three pieces, read back from them. */
  lemma ThreePieces(v: string)
    requires |Split(v, '-')| == 3
    ensures var pieces := Split(v, '-');
            v == pieces[0] + "-" + pieces[1] + "-" + pieces[2]
  {
    var pieces := Split(v, '-');
    JoinSplit(v, '-');
    JoinThree(pieces, "-");
  }

  /** Three pieces joined by a separator. */
  lemma JoinThree(pieces: seq<string>, sep: string)
    requires |pieces| == 3
    ensures Join(pieces, sep) == pieces[0] + sep + pieces[1] + sep + pieces[2]
  {
    assert pieces == [pieces[0]] + [pieces[1], pieces[2]];
    JoinCons(pieces[0], [pieces[1], pieces[2]], sep);
    assert [pieces[1], pieces[2]] == [pieces[1]] + [pieces[2]];
    JoinCons(pieces[1], [pieces[2]], sep);
  }

  /** A parsed time rule other than an open `between` is read without throwing. */
  lemma TimeRuleEvaluates(r: ScheduleRule, t: Instant)
    requires r.kind == TimeType && WellFormed(r) && !HasOpenBetween(r)
    ensures EvaluateTimeRuleIntended(r.value, t).Ok?
  {
    var pieces := Split(r.value, '-');
    assert OperatorOf(r.value) == pieces[0];
    if |pieces| == 3 {
      ThreePieces(r.value);
      assert r.value == "between-" + pieces[1] + "-" + pieces[2];
      BetweenIntended(pieces[1], pieces[2], t);
    } else {
      OtherTimeRulesUnchanged(r.value, t);
      EvaluateWithoutBetween(r, t);
    }
  }

  /** A day+time value is read as a range without throwing. */
  lemma RangeEvaluates(v: string, t: Instant)
    requires IsRangeValue(v)
    ensures EvaluateTimeRuleIntended("between-" + v, t).Ok?
  {
    var pieces := Split(v, '-');
    RangeValueJoin(v);
    assert "between-" + v == "between-" + pieces[0] + "-" + pieces[1];
    BetweenIntended(pieces[0], pieces[1], t);
  }

  /**
   * With both corrections, a well-formed rule evaluates without throwing unless it
   * holds a `between` that has no end time.
   */
  lemma {:induction false} IntendedEvaluates(r: ScheduleRule, t: Instant)
    requires WellFormedIntended(r) && !HasOpenBetween(r)
    ensures EvaluateRuleIntended(r, t).Ok?
    decreases r, 1
  {
    match r.kind
    case DayType =>
    case TimeType =>
      TimeRuleEvaluates(r, t);
    case DayTimeType =>
      assert !HasOpenBetween(r.rules[0]);
      IntendedEvaluates(r.rules[0], t);
      RangeEvaluates(r.value, t);
    case NotType =>
      assert !HasOpenBetween(r.rules[0]);
      IntendedEvaluates(r.rules[0], t);
    case AndType =>
      ConnectiveEvaluates(r, t);
    case OrType =>
      ConnectiveEvaluates(r, t);
  }

  lemma {:induction false} ConnectiveEvaluates(r: ScheduleRule, t: Instant)
    requires (r.kind == AndType || r.kind == OrType) && WellFormedIntended(r) && !HasOpenBetween(r)
    ensures EvaluateRuleIntended(r, t).Ok?
    decreases r, 0
  {
    assert !HasOpenBetween(r.rules[0]) && !HasOpenBetween(r.rules[1]);
    IntendedEvaluates(r.rules[0], t);
    IntendedEvaluates(r.rules[1], t);
    PairEvaluates(r, t);
  }

  /** An `and` or `or` of two rules that evaluate without throwing. */
  lemma PairEvaluates(r: ScheduleRule, t: Instant)
    requires (r.kind == AndType || r.kind == OrType) && |r.rules| == 2
    requires EvaluateRuleIntended(r.rules[0], t).Ok? && EvaluateRuleIntended(r.rules[1], t).Ok?
    ensures EvaluateRuleIntended(r, t).Ok?
  {
    assert forall j :: 0 <= j < |r.rules| ==> EvaluateRuleIntended(r.rules[j], t).Ok?;
    if r.kind == AndType {
      EveryIntendedOk(r, 0, t);
    } else {
      AnyIntendedOk(r, 0, t);
    }
  }

  /**
   * With both corrections, availability is defined for every schedule text except one
   * whose rule holds a `between` without an end time.
   */
  lemma IntendedAvailabilityDefined(scheduleText: string, t: Instant)
    ensures IsPartnerAvailableIntended(scheduleText, t).Throws?
            ==> ParseIntended(scheduleText).Some? && HasOpenBetween(ParseIntended(scheduleText).value)
  {
    if ParseIntended(scheduleText).Some? {
      ParsedWellFormedIntended(Tokenize(ToLower(scheduleText)));
      if !HasOpenBetween(ParseIntended(scheduleText).value) {
        IntendedEvaluates(ParseIntended(scheduleText).value, t);
      }
    }
  }

  lemma {:induction false} EveryIntendedAgrees(r: ScheduleRule, i: nat, t: Instant)
    requires forall j :: i <= j < |r.rules| ==> EvaluateRuleIntended(r.rules[j], t) == EvaluateRule(r.rules[j], t)
    ensures EveryIntended(r, i, t) == Every(r, i, t)
    decreases |r.rules| - i
  {
    if i < |r.rules| {
      EveryIntendedAgrees(r, i + 1, t);
    }
  }

  lemma {:induction false} AnyIntendedAgrees(r: ScheduleRule, i: nat, t: Instant)
    requires forall j :: i <= j < |r.rules| ==> EvaluateRuleIntended(r.rules[j], t) == EvaluateRule(r.rules[j], t)
    ensures AnyIntended(r, i, t) == Any(r, i, t)
    decreases |r.rules| - i
  {
    if i < |r.rules| {
      AnyIntendedAgrees(r, i + 1, t);
    }
  }

  /** On every parsed rule without a `between`, the corrected evaluator agrees with the source's. */
  lemma {:induction false} IntendedAgrees(r: ScheduleRule, t: Instant)
    requires WellFormed(r) && !HasBetween(r)
    ensures EvaluateRuleIntended(r, t) == EvaluateRule(r, t)
    decreases r, 1
  {
    match r.kind
    case DayType => KindAgrees(r, t);
    case TimeType => TimeAgrees(r, t);
    case DayTimeType =>
    case NotType => NotAgrees(r, t);
    case AndType => ConnectiveAgrees(r, t);
    case OrType => ConnectiveAgrees(r, t);
  }

  lemma {:induction false} NotAgrees(r: ScheduleRule, t: Instant)
    requires r.kind == NotType && WellFormed(r) && !HasBetween(r)
    ensures EvaluateRuleIntended(r, t) == EvaluateRule(r, t)
    decreases r, 0
  {
    assert !HasBetween(r.rules[0]);
    IntendedAgrees(r.rules[0], t);
    KindAgrees(r, t);
  }

  lemma {:induction false} ConnectiveAgrees(r: ScheduleRule, t: Instant)
    requires (r.kind == AndType || r.kind == OrType) && WellFormed(r) && !HasBetween(r)
    ensures EvaluateRuleIntended(r, t) == EvaluateRule(r, t)
    decreases r, 0
  {
    assert !HasBetween(r.rules[0]) && !HasBetween(r.rules[1]);
    IntendedAgrees(r.rules[0], t);
    IntendedAgrees(r.rules[1], t);
    PairAgrees(r, t);
  }

  /** An `and` or `or` of two rules on which the evaluators agree. */
  lemma PairAgrees(r: ScheduleRule, t: Instant)
    requires (r.kind == AndType || r.kind == OrType) && |r.rules| == 2
    requires EvaluateRuleIntended(r.rules[0], t) == EvaluateRule(r.rules[0], t)
    requires EvaluateRuleIntended(r.rules[1], t) == EvaluateRule(r.rules[1], t)
    ensures EvaluateRuleIntended(r, t) == EvaluateRule(r, t)
  {
    assert forall j :: 0 <= j < |r.rules| ==> EvaluateRuleIntended(r.rules[j], t) == EvaluateRule(r.rules[j], t);
    if r.kind == AndType {
      EveryIntendedAgrees(r, 0, t);
    } else {
      AnyIntendedAgrees(r, 0, t);
    }
    KindAgrees(r, t);
  }

  /** A time rule without `between` is read as before. */
  lemma TimeAgrees(r: ScheduleRule, t: Instant)
    requires r.kind == TimeType && !HasBetween(r)
    ensures EvaluateRuleIntended(r, t) == EvaluateRule(r, t)
  {
    assert OperatorOf(r.value) == Split(r.value, '-')[0];
    OtherTimeRulesUnchanged(r.value, t);
    KindAgrees(r, t);
  }

  /** One step of `evaluate`: the two evaluators agree on a rule when they agree on what it reads. */
  lemma KindAgrees(r: ScheduleRule, t: Instant)
    requires || r.kind == DayType
             || (r.kind == TimeType && EvaluateTimeRuleIntended(r.value, t) == EvaluateTimeRule(r.value, t))
             || (r.kind == NotType && |r.rules| > 0
                 && EvaluateRuleIntended(r.rules[0], t) == EvaluateRule(r.rules[0], t))
             || (r.kind == AndType && EveryIntended(r, 0, t) == Every(r, 0, t))
             || (r.kind == OrType && AnyIntended(r, 0, t) == Any(r, 0, t))
    ensures EvaluateRuleIntended(r, t) == EvaluateRule(r, t)
  {
  }

  /** Words without '-' joined with spaces hold no '-'. */
  lemma {:induction false} JoinNoDash(words: seq<string>)
    requires forall k :: 0 <= k < |words| ==> '-' !in words[k]
    ensures '-' !in Join(words, " ")
    decreases |words|
  {
    if |words| > 1 {
      JoinNoDash(words[1..]);
    }
  }

  /** Tokens without '-' hold no time range, so the corrected parser reads them as the source does. */
  lemma {:induction false} NoRangeAgrees(tokens: seq<string>)
    requires forall k :: 0 <= k < |tokens| ==> '-' !in tokens[k]
    ensures ParseTokensIntended(tokens) == ParseTokens(tokens)
    decreases |tokens|, 1
  {
    if |tokens| > 0 {
      if tokens[0] == "not" {
        NoRangeAgrees(tokens[1..]);
      }
      NoRangeConnectiveAgrees(tokens, "and", AndType);
      NoRangeConnectiveAgrees(tokens, "or", OrType);
      JoinNoDash(tokens);
      NoDashNoRange(Join(tokens, " "));
    }
  }

  lemma {:induction false} NoRangeConnectiveAgrees(tokens: seq<string>, word: string, kind: RuleType)
    requires forall k :: 0 <= k < |tokens| ==> '-' !in tokens[k]
    ensures ParseConnectiveIntended(tokens, word, kind) == ParseConnective(tokens, word, kind)
    decreases |tokens|, 0
  {
    var index := IndexOfToken(tokens, word);
    if index >= 0 {
      NoRangeAgrees(tokens[..index]);
      NoRangeAgrees(tokens[index + 1..]);
    }
  }

  /** Lower-case words joined with single spaces are read by the corrected parser as those words. */
  lemma ParseIntendedWords(words: seq<string>)
    requires |words| > 0
    requires forall k :: 0 <= k < |words| ==> IsToken(words[k]) && IsLowerText(words[k])
    ensures ParseIntended(Join(words, " ")) == ParseTokensIntended(words)
  {
    var text := Join(words, " ");
    JoinLower(words);
    ToLowerIdentity(text);
    TokenizeJoin(words);
    TokenizeEmptyIff(text);
    TrimEmptyIffBlank(text);
    assert !IsBlank(text) by {
      var i :| 0 <= i < |text| && !IsSeparator(text[i]);
    }
  }

  /** Text whose words hold no '-' parses the same under both parsers. */
  lemma NoRangeTextAgrees(words: seq<string>)
    requires |words| > 0
    requires forall k :: 0 <= k < |words| ==> IsToken(words[k]) && IsLowerText(words[k]) && '-' !in words[k]
    ensures ParseIntended(Join(words, " ")) == Parse(Join(words, " "))
  {
    ParseIntendedWords(words);
    ParseWords(words);
    NoRangeAgrees(words);
  }

  lemma LateNightWords()
    ensures var words := ["between", "10pm", "and", "2am"];
            && Join(words, " ") == "between 10pm and 2am"
            && forall k :: 0 <= k < |words| ==> IsToken(words[k]) && IsLowerText(words[k]) && '-' !in words[k]
  {
    BetweenWords();
  }

  /** The corrected parser reads "between 10pm and 2am" as the source's parser does. */
  lemma LateNightParsesIntended()
    ensures ParseIntended("between 10pm and 2am") == Some(ScheduleRule(TimeType, "between-22:00-02:00", []))
  {
    LateNightWords();
    NoRangeTextAgrees(["between", "10pm", "and", "2am"]);
    BetweenTextParses();
  }

  /** Corrected, "between 10pm and 2am" holds from 10 PM through 2 AM, across midnight. */
  lemma LateNightTextIntended(t: Instant)
    ensures IsPartnerAvailableIntended("between 10pm and 2am", t)
            == Ok(MinuteOfDay(t) >= 22 * 60 || MinuteOfDay(t) <= 2 * 60)
  {
    LateNightParsesIntended();
    LateNightIntended(t);
  }

  lemma WeekdaysWords()
    ensures var words := ["9am-5pm", "weekdays"];
            && Join(words, " ") == "9am-5pm weekdays"
            && forall k :: 0 <= k < |words| ==> IsToken(words[k]) && IsLowerText(words[k])
  {
  }

  /** The corrected parser reaches the day+time case for "9am-5pm weekdays". */
  lemma WeekdaysTokensIntended()
    ensures ParseTokensIntended(["9am-5pm", "weekdays"]) == ParseSimpleIntended(["9am-5pm", "weekdays"])
  {
    var tokens := ["9am-5pm", "weekdays"];
    assert IndexOfToken(tokens, "and") == -1;
    assert IndexOfToken(tokens, "or") == -1;
  }

  /** Corrected, "9am-5pm weekdays" holds from 9 AM to 5 PM, Monday to Friday. */
  lemma WeekdayHoursTextIntended(t: Instant)
    ensures IsPartnerAvailableIntended("9am-5pm weekdays", t)
            == Ok(1 <= t.weekday <= 5 && 9 * 60 <= MinuteOfDay(t) <= 17 * 60)
  {
    var r := ScheduleRule(DayTimeType, ClockText(9, 0) + "-" + ClockText(17, 0),
                          [ScheduleRule(DayType, DayListText([1, 2, 3, 4, 5]), [])]);
    WeekdaysParsesIntended();
    WeekdayHoursIntended(t);
    AvailableIntendedIs("9am-5pm weekdays", r, t,
                        1 <= t.weekday <= 5 && 9 * 60 <= MinuteOfDay(t) <= 17 * 60);
  }

  /** The corrected parser reads "9am-5pm weekdays" as a day+time rule. */
  lemma WeekdaysParsesIntended()
    ensures ParseIntended("9am-5pm weekdays")
            == Some(ScheduleRule(DayTimeType, ClockText(9, 0) + "-" + ClockText(17, 0),
                                 [ScheduleRule(DayType, DayListText([1, 2, 3, 4, 5]), [])]))
  {
    WeekdaysWords();
    ParseIntendedWords(["9am-5pm", "weekdays"]);
    WeekdaysTokensIntended();
    WeekdayHoursParseIntended();
  }

  /** A text the corrected parser reads as a day+time rule is available exactly when that rule holds. */
  lemma AvailableIntendedIs(text: string, r: ScheduleRule, t: Instant, b: bool)
    requires ParseIntended(text) == Some(r) && r.kind == DayTimeType
    requires EvaluateDayTimeRuleIntended(r, t) == Ok(b)
    ensures IsPartnerAvailableIntended(text, t) == Ok(b)
  {
  }
}
