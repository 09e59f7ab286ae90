/**
 * Worked schedules: what the parser builds for a few typical texts, and what the
 * evaluator and the description make of them.
 */
module ScheduleExamples {
  import opened JsBuiltins
  import opened ScheduleParser
  import opened ScheduleEvaluator
  import opened ScheduleDescription

  /** A lone day word parses to the days it names. */
  lemma SingleDayWord(w: string)
    requires w in DayMap
    ensures ParseTokens([w]) == Some(ScheduleRule(DayType, DayListText(DayValues(w)), []))
  {
    assert w != "not";
    assert IndexOfToken([w], "and") == -1 && IndexOfToken([w], "or") == -1 by {
      assert "and" !in DayMap && "or" !in DayMap;
    }
    CollectSingle(DayValues, w);
    DayValuesNonEmpty(w);
  }

  /** "mon or sun" is an `or` of two day rules. */
  lemma MonOrSunParses()
    ensures ParseTokens(["mon", "or", "sun"])
            == Some(ScheduleRule(OrType, "", [ScheduleRule(DayType, DayListText([1]), []), ScheduleRule(DayType, DayListText([0]), [])]))
  {
    var tokens := ["mon", "or", "sun"];
    assert IndexOfToken(tokens, "and") == -1;
    assert IndexOfToken(tokens, "or") == 1;
    assert tokens[..1] == ["mon"] && tokens[2..] == ["sun"];
    MondayWords();
    SundayWords();
    SingleDayWord("mon");
    SingleDayWord("sun");
  }

  /** The `or` rule of "mon or sun" holds on Mondays and Sundays. */
  lemma MonOrSunRule(t: Instant)
    ensures EvaluateRule(ScheduleRule(OrType, "", [ScheduleRule(DayType, DayListText([1]), []), ScheduleRule(DayType, DayListText([0]), [])]), t)
            == Ok(t.weekday == 1 || t.weekday == 0)
  {
    var mon := ScheduleRule(DayType, DayListText([1]), []);
    var sun := ScheduleRule(DayType, DayListText([0]), []);
    DayRuleHolds([1], t);
    DayRuleHolds([0], t);
    ConnectiveHolds(OrType, mon, sun, t);
  }

  /**
   * `isPartnerAvailable("mon or sun", t)` holds exactly on Mondays and Sundays, at
   * any hour: true on a Monday or a Sunday, false on a Friday.
   */
  lemma MonOrSunHolds(t: Instant)
    ensures IsPartnerAvailable("mon or sun", t) == Ok(t.weekday == 1 || t.weekday == 0)
  {
    MonOrSunWords();
    ParseWords(["mon", "or", "sun"]);
    MonOrSunParses();
    MonOrSunRule(t);
  }

  /** The words of "mon or sun" (literal facts kept out of the callers' proofs). */
  lemma MonOrSunWords()
    ensures var words := ["mon", "or", "sun"];
            && Join(words, " ") == "mon or sun"
            && forall k :: 0 <= k < |words| ==> IsToken(words[k]) && IsLowerText(words[k])
  {
    var words := ["mon", "or", "sun"];
    assert Join(words, " ") == "mon or sun" by {
      assert words[1..] == ["or", "sun"] && words[1..][1..] == ["sun"];
    }
    assert IsToken("mon") && IsLowerText("mon") && IsToken("or") && IsLowerText("or") by {}
    assert IsToken("sun") && IsLowerText("sun") by {}
  }

  /** The tokens of "not friday" hold on every day but Friday. */
  lemma NotFridayTokensHold(t: Instant)
    ensures Evaluate(ParseTokens(["not", "friday"]), t) == Ok(t.weekday != 5)
  {
    assert ["not"] + ["friday"] == ["not", "friday"];
    NotEvaluates(["friday"], t);
    FridayWords();
    SingleDayWord("friday");
    DayRuleHolds([5], t);
  }

  /** `isPartnerAvailable("not friday", t)` holds on every day but Friday. */
  lemma NotFridayHolds(t: Instant)
    ensures IsPartnerAvailable("not friday", t) == Ok(t.weekday != 5)
  {
    NotFridayWords();
    ParseWords(["not", "friday"]);
    NotFridayTokensHold(t);
  }

  /** The words of "not friday" (literal facts kept out of the callers' proofs). */
  lemma NotFridayWords()
    ensures var words := ["not", "friday"];
            && Join(words, " ") == "not friday"
            && forall k :: 0 <= k < |words| ==> IsToken(words[k]) && IsLowerText(words[k])
  {
    var words := ["not", "friday"];
    assert Join(words, " ") == "not friday" by {
      assert words[1..] == ["friday"];
    }
    assert IsToken("not") && IsLowerText("not") by {}
    assert IsToken("friday") && IsLowerText("friday") by {}
  }

  // ---------------------------------------------------------------------
  // "between 10pm and 2am": parsed, but neither evaluable nor describable.
  // ---------------------------------------------------------------------

  /** "10pm" is read as 22:00. */
  lemma TenPm()
    ensures ParseTimeValue("10pm") == Some(ClockText(22, 0))
  {
    HourValueIs("10pm", "10", "pm", 22);
  }

  /** "2am" is read as 02:00. */
  lemma TwoAm()
    ensures ParseTimeValue("2am") == Some(ClockText(2, 0))
  {
    HourValueIs("2am", "2", "am", 2);
  }

  /** The literal value of the between rule (kept apart so that callers do not unfold the padding). */
  lemma BetweenClocks()
    ensures "between-" + ClockText(22, 0) + "-" + ClockText(2, 0) == "between-22:00-02:00"
  {
    Pad2Digits(22);
    Pad2Digits(2);
    Pad2Digits(0);
  }

  /** The words of "between 10pm and 2am" parse to one `between` time rule. */
  lemma BetweenTokensParse()
    ensures ParseTokens(["between", "10pm", "and", "2am"]) == Some(ScheduleRule(TimeType, "between-22:00-02:00", []))
  {
    TenPm();
    TwoAm();
    BetweenAndFallsThrough("10pm", "2am");
    BetweenClocks();
  }

  /** The words of "between 10pm and 2am", joined by spaces. */
  lemma BetweenWordsJoin()
    ensures Join(["between", "10pm", "and", "2am"], " ") == "between 10pm and 2am"
  {
    var words := ["between", "10pm", "and", "2am"];
    assert words[1..] == ["10pm", "and", "2am"];
    assert words[1..][1..] == ["and", "2am"];
    assert words[1..][1..][1..] == ["2am"];
  }

  /** The words of "between 10pm and 2am" are lower-case tokens that join to the text. */
  lemma BetweenWords()
    ensures var words := ["between", "10pm", "and", "2am"];
            && Join(words, " ") == "between 10pm and 2am"
            && forall k :: 0 <= k < |words| ==> IsToken(words[k]) && IsLowerText(words[k])
  {
    BetweenWordsJoin();
    BetweenWordsTokens();
  }

  /** Each word of "between 10pm and 2am" is a lower-case token. */
  lemma BetweenWordsTokens()
    ensures IsToken("between") && IsLowerText("between") && IsToken("10pm") && IsLowerText("10pm")
    ensures IsToken("and") && IsLowerText("and") && IsToken("2am") && IsLowerText("2am")
  {
  }

  /** "between 10pm and 2am" parses to one `between` time rule. */
  lemma BetweenTextParses()
    ensures Parse("between 10pm and 2am") == Some(ScheduleRule(TimeType, "between-22:00-02:00", []))
  {
    BetweenWords();
    ParseWords(["between", "10pm", "and", "2am"]);
    BetweenTokensParse();
  }

  /** Text that parses to a `between` rule can be neither checked nor described. */
  lemma ParsedBetweenThrows(text: string, rest: string, t: Instant)
    requires Parse(text) == Some(ScheduleRule(TimeType, "between-" + rest, []))
    ensures IsPartnerAvailable(text, t) == Throws
    ensures GetScheduleDescription(text) == Throws
  {
    BetweenThrows(rest, t);
    DescribeBetweenThrows(rest);
    TrimEmptyIffBlank(text);
    if IsBlank(text) {
      ParseBlank(text);
    }
  }

  /** The value split after its "between-" prefix (a literal fact kept out of the callers' proofs). */
  lemma BetweenValue()
    ensures "between-22:00-02:00" == "between-" + "22:00-02:00"
  {
  }

  /** Checking a partner against "between 10pm and 2am" throws. */
  lemma BetweenTextUnavailable(t: Instant)
    ensures IsPartnerAvailable("between 10pm and 2am", t) == Throws
  {
    BetweenTextParses();
    BetweenValue();
    ParsedBetweenThrows("between 10pm and 2am", "22:00-02:00", t);
  }

  /** Describing "between 10pm and 2am" throws. */
  lemma BetweenTextUndescribed()
    ensures GetScheduleDescription("between 10pm and 2am") == Throws
  {
    BetweenTextParses();
    BetweenValue();
    ParsedBetweenThrows("between 10pm and 2am", "22:00-02:00", Instant(0, 0, 0));
  }

  // ---------------------------------------------------------------------
  // "9am-5pm weekdays": the day list wins, and the hours are ignored.
  // ---------------------------------------------------------------------

  /** The day word decides: the range token is no day word and is skipped. */
  lemma WeekdaysRangeParses()
    ensures ParseTokens(["9am-5pm", "weekdays"]) == Some(ScheduleRule(DayType, DayListText([1, 2, 3, 4, 5]), []))
  {
    var tokens := ["9am-5pm", "weekdays"];
    assert IndexOfToken(tokens, "and") == -1 && IndexOfToken(tokens, "or") == -1;
    DayIndicesAppend(["9am-5pm"], ["weekdays"]);
    assert tokens == ["9am-5pm"] + ["weekdays"];
    CollectSingle(DayValues, "9am-5pm");
    CollectSingle(DayValues, "weekdays");
    DayValuesNonEmpty("9am-5pm");
    WeekdayWords();
  }

  /** Membership in the weekday list as a range (kept out of the callers' proofs). */
  lemma WeekdayNumbers(w: nat)
    ensures w in [1, 2, 3, 4, 5] <==> 1 <= w <= 5
  {
  }

  /** The tokens of "9am-5pm weekdays" hold all day Monday to Friday and never at weekends. */
  lemma WeekdaysRangeTokensHold(t: Instant)
    ensures Evaluate(ParseTokens(["9am-5pm", "weekdays"]), t) == Ok(1 <= t.weekday <= 5)
  {
    WeekdaysRangeParses();
    DayRuleHolds([1, 2, 3, 4, 5], t);
    WeekdayNumbers(t.weekday);
  }

  /**
   * `isPartnerAvailable("9am-5pm weekdays", t)` holds all day Monday to Friday, 8 PM
   * and 3 AM included, and never at weekends: the hours are ignored.
   */
  lemma WeekdaysRangeHolds(t: Instant)
    ensures IsPartnerAvailable("9am-5pm weekdays", t) == Ok(1 <= t.weekday <= 5)
  {
    WeekdaysRangeWords();
    ParseWords(["9am-5pm", "weekdays"]);
    WeekdaysRangeTokensHold(t);
  }

  /** The words of "9am-5pm weekdays" (literal facts kept out of the callers' proofs). */
  lemma WeekdaysRangeWords()
    ensures var words := ["9am-5pm", "weekdays"];
            && Join(words, " ") == "9am-5pm weekdays"
            && forall k :: 0 <= k < |words| ==> IsToken(words[k]) && IsLowerText(words[k])
  {
    var words := ["9am-5pm", "weekdays"];
    assert Join(words, " ") == "9am-5pm weekdays" by {
      assert words[1..] == ["weekdays"];
    }
    assert IsToken("9am-5pm") && IsLowerText("9am-5pm") by {}
    assert IsToken("weekdays") && IsLowerText("weekdays") by {}
  }

  // ---------------------------------------------------------------------
  // Descriptions.
  // ---------------------------------------------------------------------

  /** A single day word, as schedule text, parses to its days and reads as their names. */
  lemma DayWordText(w: string)
    requires w in DayMap && IsToken(w) && IsLowerText(w)
    ensures Parse(w) == Some(ScheduleRule(DayType, DayListText(DayValues(w)), []))
    ensures GetScheduleDescription(w) == Ok(Join(DayNameList(DayValues(w)), ", "))
  {
    assert Join([w], " ") == w;
    ParseWords([w]);
    SingleDayWord(w);
    DayValuesNonEmpty(w);
    DescribeDayText(w, DayValues(w));
  }

  /** "weekend" is a lower-case token. */
  lemma WeekendToken()
    ensures IsToken("weekend") && IsLowerText("weekend")
  {
  }

  /** "weekend" parses to days 0 and 6. */
  lemma WeekendParses()
    ensures Parse("weekend") == Some(ScheduleRule(DayType, DayListText([0, 6]), []))
  {
    WeekendToken();
    WeekendWords();
    DayWordText("weekend");
  }

  /** The names of days 0 and 6, joined (a literal fact kept out of the callers' proofs). */
  lemma WeekendNames()
    ensures Join(DayNameList([0, 6]), ", ") == "Sunday, Saturday"
  {
    assert DayNameList([0, 6]) == ["Sunday", "Saturday"];
  }

  /** "weekend" reads "Sunday, Saturday". */
  lemma WeekendDescription()
    ensures GetScheduleDescription("weekend") == Ok("Sunday, Saturday")
  {
    WeekendToken();
    WeekendWords();
    DayWordText("weekend");
    WeekendNames();
  }

  /** Text that parses to a day rule is described by the days' names. */
  lemma DescribeDayText(text: string, days: seq<nat>)
    requires |days| > 0 && forall k :: 0 <= k < |days| ==> days[k] <= 6
    requires Parse(text) == Some(ScheduleRule(DayType, DayListText(days), []))
    ensures GetScheduleDescription(text) == Ok(Join(DayNameList(days), ", "))
  {
    DescribeParsed(text);
    DescribeDayList(days);
  }

  /** The name of day 5 (a literal fact kept out of the callers' proofs). */
  lemma FridayName()
    ensures Join(DayNameList([5]), ", ") == "Friday"
  {
    assert DayNameList([5]) == ["Friday"];
  }

  /** The tokens of "not friday" parse to the negation of the Friday rule. */
  lemma NotFridayParses()
    ensures ParseTokens(["not", "friday"])
            == Some(ScheduleRule(NotType, "", [ScheduleRule(DayType, DayListText([5]), [])]))
  {
    NotPrefix(["friday"]);
    assert ["not"] + ["friday"] == ["not", "friday"];
    FridayWords();
    SingleDayWord("friday");
  }

  /** The "Not " prefix on "Friday" (a literal fact kept out of the callers' proofs). */
  lemma NotFridayText()
    ensures "Not " + "Friday" == "Not Friday"
  {
  }

  /** "not friday" reads "Not Friday". */
  lemma NotFridayDescription()
    ensures ParseTokens(["not", "friday"]).Some?
    ensures DescribeRule(ParseTokens(["not", "friday"]).value) == Ok("Not Friday")
  {
    NotFridayParses();
    DescribeDayList([5]);
    FridayName();
    DescribeNot(ScheduleRule(DayType, DayListText([5]), []));
    NotFridayText();
  }
}
