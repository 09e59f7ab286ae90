/**
 * The availability-schedule language: tokenizer and recursive-descent parser
 * (class `ScheduleParser` of src/helpers/scheduleParser.ts).
 *
 * A rule keeps the shape the source gives it: a type tag, a `value` string
 * and a list of child rules. Day rules carry their day indices joined by
 * commas ("1,2,3,4,5"), time rules carry "keyword-HH:MM" or
 * "between-HH:MM-HH:MM", connectives carry their children.
 */
module ScheduleParser {
  import opened JsBuiltins

  datatype RuleType = DayType | TimeType | DayTimeType | NotType | AndType | OrType

  /** `ScheduleRule`: an absent `value` is the empty string, an absent `rules` the empty list. */
  datatype ScheduleRule = ScheduleRule(kind: RuleType, value: string, rules: seq<ScheduleRule>)

  /** Day names and abbreviations; -1 stands for the working week, -2 for the weekend. */
  const DayMap: map<string, int> := map[
    "monday" := 1, "mon" := 1,
    "tuesday" := 2, "tue" := 2, "tues" := 2,
    "wednesday" := 3, "wed" := 3,
    "thursday" := 4, "thu" := 4, "thurs" := 4,
    "friday" := 5, "fri" := 5,
    "saturday" := 6, "sat" := 6,
    "sunday" := 0, "sun" := 0,
    "weekday" := -1, "weekdays" := -1,
    "weekend" := -2, "weekends" := -2
  ]

  const TimeKeywords: seq<string> := ["before", "after", "until", "from", "between"]

  // ---------------------------------------------------------------------
  // Tokenizer: lower-case, split on runs of commas and whitespace, drop empties.
  // ---------------------------------------------------------------------

  predicate IsSeparator(c: char) { c == ',' || IsWhitespace(c) }

  /** A token is non-empty and holds no separator. */
  predicate IsToken(t: string) {
    |t| > 0 && forall i :: 0 <= i < |t| ==> !IsSeparator(t[i])
  }

  /** Length of the longest prefix of `s` free of separators. */
  function WordLength(s: string): (n: nat)
    ensures n <= |s|
    ensures forall i :: 0 <= i < n ==> !IsSeparator(s[i])
    ensures n == |s| || IsSeparator(s[n])
  {
    if |s| == 0 || IsSeparator(s[0]) then 0 else 1 + WordLength(s[1..])
  }

  /** `text.split(/[,\s]+/).map(trim).filter(nonEmpty)`: the maximal separator-free runs of `text`. */
  function Tokenize(text: string): (tokens: seq<string>)
    ensures forall k :: 0 <= k < |tokens| ==> IsToken(tokens[k])
    decreases |text|
  {
    if |text| == 0 then []
    else if IsSeparator(text[0]) then Tokenize(text[1..])
    else
      var n := WordLength(text);
      [text[..n]] + Tokenize(text[n..])
  }

  /** `ScheduleParser.parse`: blank text has no rule; otherwise parse the lower-cased tokens. */
  function Parse(scheduleText: string): Option<ScheduleRule> {
    if Trim(scheduleText) == "" then None
    else ParseTokens(Tokenize(ToLower(scheduleText)))
  }

  // ---------------------------------------------------------------------
  // Recursive descent.
  // ---------------------------------------------------------------------

  /** `tokens.findIndex(t => t === w)` (also `tokens.indexOf(w)`). */
  function IndexOfToken(tokens: seq<string>, w: string): (i: int)
    ensures -1 <= i < |tokens|
    ensures i == -1 <==> w !in tokens
    ensures 0 <= i ==> tokens[i] == w && w !in tokens[..i]
  {
    if |tokens| == 0 then -1
    else if tokens[0] == w then 0
    else
      var j := IndexOfToken(tokens[1..], w);
      assert j >= 0 ==> tokens[1..][..j] == tokens[1..j + 1];
      if j < 0 then -1 else j + 1
  }

  /** `parseTokens`: a leading `not`, then the first `and`, then the first `or`,
      then a day list, then a time keyword, then a day+time range. A case that
      fails hands over to the next one. */
  function ParseTokens(tokens: seq<string>): Option<ScheduleRule>
    decreases |tokens|, 1
  {
    if |tokens| == 0 then None
    else
      var inner := if tokens[0] == "not" then ParseTokens(tokens[1..]) else None;
      if inner.Some? then Some(ScheduleRule(NotType, "", [inner.value]))
      else
        var andRule := ParseConnective(tokens, "and", AndType);
        if andRule.Some? then andRule
        else
          var orRule := ParseConnective(tokens, "or", OrType);
          if orRule.Some? then orRule
          else ParseSimple(tokens)
  }

  /** The cases without sub-rules: a day list, then a time keyword, then a day+time range. */
  function ParseSimple(tokens: seq<string>): Option<ScheduleRule> {
    var dayRule := DayExpression(tokens);
    if dayRule.Some? then dayRule
    else
      var timeRule := TimeExpression(tokens);
      if timeRule.Some? then timeRule
      else DayTimeExpression(tokens)
  }

  /** The `and` / `or` cases: split at the first `word`; both halves must parse. */
  function ParseConnective(tokens: seq<string>, word: string, kind: RuleType): Option<ScheduleRule>
    decreases |tokens|, 0
  {
    var index := IndexOfToken(tokens, word);
    if index < 0 then None
    else
      var left := ParseTokens(tokens[..index]);
      var right := ParseTokens(tokens[index + 1..]);
      if left.Some? && right.Some? then Some(ScheduleRule(kind, "", [left.value, right.value]))
      else None
  }

  // ---------------------------------------------------------------------
  // Day expressions.
  // ---------------------------------------------------------------------

  /** The day indices one token contributes. */
  function DayValues(token: string): (days: seq<nat>)
    ensures forall k :: 0 <= k < |days| ==> days[k] <= 6
  {
    if token in DayMap then
      var dayValue := DayMap[token];
      if dayValue == -1 then [1, 2, 3, 4, 5]
      else if dayValue == -2 then [0, 6]
      else [dayValue]
    else []
  }

  /** A token contributes days exactly when it is a day word. */
  lemma DayValuesNonEmpty(token: string)
    ensures |DayValues(token)| > 0 <==> token in DayMap
  {
  }

  /** The concatenation of what `f` gives for each token, in token order. */
  function Collect(f: string -> seq<nat>, tokens: seq<string>): seq<nat> {
    if |tokens| == 0 then [] else Collect(f, tokens[..|tokens| - 1]) + f(tokens[|tokens| - 1])
  }

  /** The day indices collected from `tokens`, in token order. */
  function DayIndices(tokens: seq<string>): (days: seq<nat>)
    ensures forall k :: 0 <= k < |days| ==> days[k] <= 6
  {
    DayIndicesBound(tokens);
    Collect(DayValues, tokens)
  }

  lemma {:induction false} DayIndicesBound(tokens: seq<string>)
    ensures forall k :: 0 <= k < |Collect(DayValues, tokens)| ==> Collect(DayValues, tokens)[k] <= 6
  {
    if |tokens| > 0 {
      DayIndicesBound(tokens[..|tokens| - 1]);
    }
  }

  /** `days.join(',')`. */
  function DayListText(days: seq<nat>): string {
    Join(seq(|days|, k requires 0 <= k < |days| => NatToString(days[k])), ",")
  }

  function DayExpression(tokens: seq<string>): Option<ScheduleRule> {
    var days := DayIndices(tokens);
    if |days| > 0 then Some(ScheduleRule(DayType, DayListText(days), [])) else None
  }

  /** `parseDayExpression`: collect the days named by the tokens, ignoring the rest. */
  method ParseDayExpression(tokens: seq<string>) returns (rule: Option<ScheduleRule>)
    ensures rule == DayExpression(tokens)
    ensures rule.Some? <==> exists k :: 0 <= k < |tokens| && tokens[k] in DayMap
  {
    var days: seq<nat> := [];
    for i := 0 to |tokens|
      invariant days == DayIndices(tokens[..i])
    {
      var token := tokens[i];
      assert tokens[..i + 1][..i] == tokens[..i];
      if token in DayMap {
        var dayValue := DayMap[token];
        if dayValue == -1 {
          days := days + [1, 2, 3, 4, 5];
        } else if dayValue == -2 {
          days := days + [0, 6];
        } else {
          days := days + [dayValue];
        }
      }
    }
    assert tokens[..|tokens|] == tokens;
    if |days| > 0 {
      rule := Some(ScheduleRule(DayType, DayListText(days), []));
    } else {
      rule := None;
    }
    DayIndicesNonEmpty(tokens);
  }

  // ---------------------------------------------------------------------
  // Time values and time expressions.
  // ---------------------------------------------------------------------

  /** "HH:MM", each part zero-padded to two digits. */
  function ClockText(hour: nat, minute: nat): string {
    Pad2(hour) + ":" + Pad2(minute)
  }

  /** A well-formed "HH:MM" with hour at most 23 and minute at most 59. */
  predicate IsClockText(s: string) {
    && |s| == 5 && AllDigits(s[..2]) && s[2] == ':' && AllDigits(s[3..])
    && DigitsValue(s[..2]) <= 23 && DigitsValue(s[3..]) <= 59
  }

  /** The hour and minute written in a clock text. */
  function ClockHour(s: string): nat requires IsClockText(s) { DigitsValue(s[..2]) }
  function ClockMinute(s: string): nat requires IsClockText(s) { DigitsValue(s[3..]) }

  /** `ClockText` spells a valid hour and minute as a clock text that reads back as them. */
  lemma ClockTextShape(hour: nat, minute: nat)
    requires hour <= 23 && minute <= 59
    ensures IsClockText(ClockText(hour, minute))
    ensures ClockHour(ClockText(hour, minute)) == hour
    ensures ClockMinute(ClockText(hour, minute)) == minute
  {
    Pad2Value(hour);
    Pad2Value(minute);
    ClockOfPieces(Pad2(hour), Pad2(minute));
  }

  /** Two digit pairs around a colon make a clock text reading back as their values. */
  lemma ClockOfPieces(a: string, b: string)
    requires |a| == 2 && |b| == 2 && AllDigits(a) && AllDigits(b)
    requires DigitsValue(a) <= 23 && DigitsValue(b) <= 59
    ensures IsClockText(a + ":" + b)
    ensures ClockHour(a + ":" + b) == DigitsValue(a) && ClockMinute(a + ":" + b) == DigitsValue(b)
  {
    var s := a + ":" + b;
    assert s[..2] == a;
    assert s[3..] == b;
  }

  /** Two digits are the padded spelling of their own value. */
  lemma TwoDigitsPad(ds: string)
    requires |ds| == 2 && AllDigits(ds)
    ensures Pad2(DigitsValue(ds)) == ds
  {
    var tens, units := DigitValue(ds[0]), DigitValue(ds[1]);
    assert DigitsValue(ds[..1]) == tens;
    assert DigitsValue(ds) == 10 * tens + units;
    Pad2OfDigits(tens, units);
    assert ds == [DigitChar(tens), DigitChar(units)];
  }

  /** A number below 100 is padded to its tens digit and its units digit. */
  lemma Pad2OfDigits(tens: nat, units: nat)
    requires tens < 10 && units < 10
    ensures Pad2(10 * tens + units) == [DigitChar(tens), DigitChar(units)]
  {
    var n := 10 * tens + units;
    assert n / 10 == tens && n % 10 == units;
    Pad2Digits(n);
  }

  /** Every clock text is the spelling of its own hour and minute. */
  lemma ClockTextOf(s: string)
    requires IsClockText(s)
    ensures ClockText(ClockHour(s), ClockMinute(s)) == s
  {
    TwoDigitsPad(s[..2]);
    TwoDigitsPad(s[3..]);
    assert s == s[..2] + ":" + s[3..];
  }

  /** The 24-hour value of an hour written with an optional `am`/`pm`. */
  function To24Hour(hour: nat, period: string): nat {
    if period == "pm" && hour != 12 then hour + 12
    else if period == "am" && hour == 12 then 0
    else hour
  }

  /** The three capture groups of `^(\d{1,2})(?::(\d{2}))?\s*(am|pm)?$`; an absent group is "". */
  datatype TimeMatch = TimeMatch(hourText: string, minuteText: string, period: string)

  /**
   * Matching a time value against `^(\d{1,2})(?::(\d{2}))?\s*(am|pm)?$`. Taking each part
   * greedily loses no match: after the hour digits comes a non-digit, and `:` followed by
   * two digits can only be read as the minutes.
   */
  function MatchTimeText(timeStr: string): (m: Option<TimeMatch>)
    ensures m.Some? ==> 1 <= |m.value.hourText| <= 2 && AllDigits(m.value.hourText)
    ensures m.Some? ==> m.value.minuteText == "" || (|m.value.minuteText| == 2 && AllDigits(m.value.minuteText))
    ensures m.Some? ==> m.value.period in {"", "am", "pm"}
  {
    var hourDigits := DigitRun(timeStr);
    if hourDigits < 1 || hourDigits > 2 then None
    else
      var (minuteText, afterMinutes) := SplitMinutes(timeStr[hourDigits..]);
      var period := SkipWhitespace(afterMinutes);
      if period != "" && period != "am" && period != "pm" then None
      else Some(TimeMatch(timeStr[..hourDigits], minuteText, period))
  }

  /** The optional `(?::(\d{2}))` group: its two digits (or "") and the text after it. */
  function SplitMinutes(rest: string): (r: (string, string))
    ensures r.0 == "" || (|r.0| == 2 && AllDigits(r.0))
  {
    if |rest| >= 3 && rest[0] == ':' && IsDigit(rest[1]) && IsDigit(rest[2])
    then (rest[1..3], rest[3..])
    else ("", rest)
  }

  /** What follows `\s*`. */
  function SkipWhitespace(s: string): string {
    s[WhitespaceRun(s)..]
  }

  /**
   * `parseTimeValue`: the matched hour is moved to the 24-hour clock and the result is
   * "HH:MM", or nothing when the text does not match, the hour exceeds 23 or the minute 59.
   */
  function ParseTimeValue(timeStr: string): (r: Option<string>)
    ensures r.Some? ==> IsClockText(r.value)
  {
    match MatchTimeText(timeStr)
    case None => None
    case Some(tm) =>
      var minute := if tm.minuteText != "" then DigitsValue(tm.minuteText) else 0;
      var hour := To24Hour(DigitsValue(tm.hourText), tm.period);
      if hour > 23 || minute > 59 then None
      else
        ClockTextShape(hour, minute);
        Some(ClockText(hour, minute))
  }

  /** Index of the first token that is a time keyword, or -1 (`tokens.find(...)`). */
  function FirstTimeKeyword(tokens: seq<string>): (i: int)
    ensures -1 <= i < |tokens|
    ensures 0 <= i ==> tokens[i] in TimeKeywords
    ensures forall k :: 0 <= k < |tokens| && (i < 0 || k < i) ==> tokens[k] !in TimeKeywords
  {
    if |tokens| == 0 then -1
    else if tokens[0] in TimeKeywords then 0
    else
      var j := FirstTimeKeyword(tokens[1..]);
      if j < 0 then -1 else j + 1
  }

  /** `parseTimeExpression`: the first time keyword and the time after it;
      `between` followed by `and` and a second time gives a range. */
  function TimeExpression(tokens: seq<string>): Option<ScheduleRule> {
    if |tokens| < 2 then None
    else
      var found := FirstTimeKeyword(tokens);
      if found < 0 then None
      else TimeRuleAfter(tokens[IndexOfToken(tokens, tokens[found])..])
  }

  /** The time rule read from the tokens that start at the time keyword. */
  function TimeRuleAfter(tail: seq<string>): Option<ScheduleRule>
    requires |tail| >= 1
  {
    var timeKeyword := tail[0];
    if |tail| < 2 || tail[1] == "" then None
    else
      var parsedTime := ParseTimeValue(tail[1]);
      if parsedTime.None? then None
      else if timeKeyword == "between" && |tail| > 2 && tail[2] == "and" then
        if |tail| < 4 || tail[3] == "" then None
        else
          var endTime := ParseTimeValue(tail[3]);
          if endTime.None? then None
          else Some(ScheduleRule(TimeType, "between-" + parsedTime.value + "-" + endTime.value, []))
      else Some(ScheduleRule(TimeType, timeKeyword + "-" + parsedTime.value, []))
  }

  // ---------------------------------------------------------------------
  // Day+time ranges: the search for `H[:MM][am|pm] - H[:MM][am|pm]`.
  // ---------------------------------------------------------------------

  /** Length of the match of `\d{1,2}(?::\d{2})?(?:am|pm)?` at the start of `s`
      (each optional part taken when present), 0 when `s` does not start with a digit. */
  function ClockPatternLength(s: string): (n: nat)
    ensures n <= |s|
    ensures n > 0 <==> |s| > 0 && IsDigit(s[0])
  {
    var d := if |s| >= 2 && IsDigit(s[0]) && IsDigit(s[1]) then 2
             else if |s| >= 1 && IsDigit(s[0]) then 1 else 0;
    if d == 0 then 0
    else
      var m := if |s| >= d + 3 && s[d] == ':' && IsDigit(s[d + 1]) && IsDigit(s[d + 2]) then d + 3 else d;
      if |s| >= m + 2 && (s[m..m + 2] == "am" || s[m..m + 2] == "pm") then m + 2 else m
  }

  /** The whole match and its two captured times. */
  datatype RangeMatch = RangeMatch(whole: string, start: string, end: string)

  /** The range pattern anchored at the start of `s`. */
  function RangeMatchAt(s: string): Option<RangeMatch> {
    var n1 := ClockPatternLength(s);
    if n1 == 0 then None
    else
      var p := n1 + WhitespaceRun(s[n1..]);
      if p >= |s| || s[p] != '-' then None
      else
        var q := p + 1 + WhitespaceRun(s[p + 1..]);
        var n2 := ClockPatternLength(s[q..]);
        if n2 == 0 then None
        else Some(RangeMatch(s[..q + n2], s[..n1], s[q..q + n2]))
  }

  /** `s.match(/(...)\s*-\s*(...)/)`: the leftmost match. */
  function FindTimeRange(s: string): Option<RangeMatch>
    decreases |s|
  {
    if |s| == 0 then None
    else
      var here := RangeMatchAt(s);
      if here.Some? then here else FindTimeRange(s[1..])
  }

  /** `tokens.filter(token => !whole.includes(token))`. */
  function TokensNotIn(tokens: seq<string>, whole: string): (kept: seq<string>)
    ensures forall k :: 0 <= k < |kept| ==> kept[k] in tokens
  {
    if |tokens| == 0 then []
    else
      var rest := TokensNotIn(tokens[1..], whole);
      if Contains(whole, tokens[0]) then rest else [tokens[0]] + rest
  }

  /** `parseDayTimeExpression`: a time range in the joined text, then the days
      named by the tokens the range does not contain. */
  function DayTimeExpression(tokens: seq<string>): Option<ScheduleRule> {
    var found := FindTimeRange(Join(tokens, " "));
    if found.None? then None
    else
      var startTime := ParseTimeValue(found.value.start);
      var endTime := ParseTimeValue(found.value.end);
      if startTime.None? || endTime.None? then None
      else
        var dayRule := DayExpression(TokensNotIn(tokens, found.value.whole));
        if dayRule.None? then None
        else Some(ScheduleRule(DayTimeType, startTime.value + "-" + endTime.value, [dayRule.value]))
  }

  // ---------------------------------------------------------------------
  // Properties of the tokenizer.
  // ---------------------------------------------------------------------

  /** Text without any token character tokenizes to nothing, and only such text does. */
  lemma {:induction false} TokenizeEmptyIff(text: string)
    ensures Tokenize(text) == [] <==> forall i :: 0 <= i < |text| ==> IsSeparator(text[i])
    decreases |text|
  {
    if |text| > 0 && IsSeparator(text[0]) {
      TokenizeEmptyIff(text[1..]);
      assert forall i :: 1 <= i < |text| ==> text[i] == text[1..][i - 1];
    }
  }

  /** Tokenizing undoes joining tokens with single spaces. */
  lemma {:induction false} TokenizeJoin(words: seq<string>)
    requires forall k :: 0 <= k < |words| ==> IsToken(words[k])
    ensures Tokenize(Join(words, " ")) == words
  {
    if |words| == 1 {
      var w := words[0];
      assert WordLength(w) == |w|;
      assert w[|w|..] == "";
      assert w[..|w|] == w;
    } else if |words| > 1 {
      var w := words[0];
      var rest := Join(words[1..], " ");
      var s := w + " " + rest;
      assert Join(words, " ") == s;
      assert s[|w|] == ' ';
      assert forall i :: 0 <= i < |w| ==> s[i] == w[i];
      assert WordLength(s) == |w|;
      assert s[..|w|] == w;
      assert s[|w|..] == " " + rest;
      assert (" " + rest)[1..] == rest;
      TokenizeJoin(words[1..]);
      assert words == [w] + words[1..];
    }
  }

  /** No upper-case ASCII letter. */
  predicate IsLowerText(s: string) {
    forall i :: 0 <= i < |s| ==> !('A' <= s[i] <= 'Z')
  }

  /** Words joined with spaces are lower-case text when the words are. */
  lemma {:induction false} JoinLower(words: seq<string>)
    requires forall k :: 0 <= k < |words| ==> IsLowerText(words[k])
    ensures IsLowerText(Join(words, " "))
  {
    if |words| > 1 {
      JoinLower(words[1..]);
      var rest := Join(words[1..], " ");
      var s := words[0] + " " + rest;
      assert Join(words, " ") == s;
      forall i | 0 <= i < |s| ensures !('A' <= s[i] <= 'Z') {
        if i < |words[0]| {
          assert s[i] == words[0][i];
        } else if i > |words[0]| {
          assert s[i] == rest[i - |words[0]| - 1];
        }
      }
    }
  }

  /** Lower-case words joined with single spaces parse as those words. */
  lemma ParseWords(words: seq<string>)
    requires |words| > 0
    requires forall k :: 0 <= k < |words| ==> IsToken(words[k]) && IsLowerText(words[k])
    ensures Parse(Join(words, " ")) == ParseTokens(words)
  {
    var text := Join(words, " ");
    JoinLower(words);
    ToLowerIdentity(text);
    TokenizeJoin(words);
    TokenizeEmptyIff(text);
    TrimEmptyIffBlank(text);
    assert !IsBlank(text) by {
      var i :| 0 <= i < |text| && !IsSeparator(text[i]);
    }
  }

  /** Blank text (empty or only whitespace) has no rule. */
  lemma ParseBlank(scheduleText: string)
    requires IsBlank(scheduleText)
    ensures Parse(scheduleText) == None
  {
    TrimEmptyIffBlank(scheduleText);
  }

  // ---------------------------------------------------------------------
  // Properties of day expressions.
  // ---------------------------------------------------------------------

  /** Collection distributes over concatenation, so tokens are read independently and in order. */
  lemma {:induction false} CollectAppend(f: string -> seq<nat>, a: seq<string>, b: seq<string>)
    ensures Collect(f, a + b) == Collect(f, a) + Collect(f, b)
    decreases |b|
  {
    if |b| == 0 {
      assert a + b == a;
    } else {
      var b' := b[..|b| - 1];
      assert (a + b)[..|a + b| - 1] == a + b';
      assert (a + b)[|a + b| - 1] == b[|b| - 1];
      CollectAppend(f, a, b');
    }
  }

  /** A value is collected exactly when some token gives it. */
  lemma {:induction false} CollectMember(f: string -> seq<nat>, tokens: seq<string>, d: nat)
    ensures d in Collect(f, tokens) <==> exists k :: 0 <= k < |tokens| && d in f(tokens[k])
    decreases |tokens|
  {
    if |tokens| > 0 {
      var init := tokens[..|tokens| - 1];
      CollectMember(f, init, d);
      assert forall k :: 0 <= k < |init| ==> init[k] == tokens[k];
    }
  }

  /** Something is collected exactly when some token gives something. */
  lemma {:induction false} CollectNonEmpty(f: string -> seq<nat>, tokens: seq<string>)
    ensures |Collect(f, tokens)| > 0 <==> exists k :: 0 <= k < |tokens| && |f(tokens[k])| > 0
    decreases |tokens|
  {
    if |tokens| > 0 {
      var init := tokens[..|tokens| - 1];
      CollectNonEmpty(f, init);
      assert forall k :: 0 <= k < |init| ==> init[k] == tokens[k];
    }
  }

  /** Collecting from one token gives what that token gives. */
  lemma CollectSingle(f: string -> seq<nat>, t: string)
    ensures Collect(f, [t]) == f(t)
  {
    assert [t][..0] == [];
  }

  /** Non-day tokens are ignored: days are read from the two halves independently. */
  lemma DayIndicesAppend(a: seq<string>, b: seq<string>)
    ensures DayIndices(a + b) == DayIndices(a) + DayIndices(b)
  {
    CollectAppend(DayValues, a, b);
  }

  /** A day is collected exactly when some token names it. */
  lemma DayIndicesMember(tokens: seq<string>, d: nat)
    ensures d in DayIndices(tokens) <==> exists k :: 0 <= k < |tokens| && d in DayValues(tokens[k])
  {
    CollectMember(DayValues, tokens, d);
  }

  /** Some day is collected exactly when some token is a day word. */
  lemma DayIndicesNonEmpty(tokens: seq<string>)
    ensures |DayIndices(tokens)| > 0 <==> exists k :: 0 <= k < |tokens| && tokens[k] in DayMap
  {
    CollectNonEmpty(DayValues, tokens);
    forall k | 0 <= k < |tokens| ensures |DayValues(tokens[k])| > 0 <==> tokens[k] in DayMap {
      DayValuesNonEmpty(tokens[k]);
    }
  }

  lemma SundayWords()
    ensures "sunday" in DayMap && "sun" in DayMap
    ensures DayValues("sunday") == DayValues("sun") == [0]
  {
  }

  lemma MondayWords()
    ensures "monday" in DayMap && "mon" in DayMap
    ensures DayValues("monday") == DayValues("mon") == [1]
  {
  }

  lemma TuesdayWords()
    ensures DayValues("tuesday") == DayValues("tue") == DayValues("tues") == [2]
  {
  }

  lemma WednesdayWords()
    ensures DayValues("wednesday") == DayValues("wed") == [3]
  {
  }

  lemma ThursdayWords()
    ensures DayValues("thursday") == DayValues("thu") == DayValues("thurs") == [4]
  {
  }

  lemma FridayWords()
    ensures "friday" in DayMap && "fri" in DayMap
    ensures DayValues("friday") == DayValues("fri") == [5]
  {
  }

  lemma SaturdayWords()
    ensures DayValues("saturday") == DayValues("sat") == [6]
  {
  }

  lemma WeekdayWords()
    ensures "weekday" in DayMap && "weekdays" in DayMap
    ensures DayValues("weekday") == DayValues("weekdays") == [1, 2, 3, 4, 5]
  {
  }

  lemma WeekendWords()
    ensures "weekend" in DayMap && "weekends" in DayMap
    ensures DayValues("weekend") == DayValues("weekends") == [0, 6]
  {
  }

  /** Every spelling of a day gives its index (0 = Sunday); the two group words expand. */
  lemma DayNameTable()
    ensures DayValues("sunday") == DayValues("sun") == [0]
    ensures DayValues("monday") == DayValues("mon") == [1]
    ensures DayValues("tuesday") == DayValues("tue") == DayValues("tues") == [2]
    ensures DayValues("wednesday") == DayValues("wed") == [3]
    ensures DayValues("thursday") == DayValues("thu") == DayValues("thurs") == [4]
    ensures DayValues("friday") == DayValues("fri") == [5]
    ensures DayValues("saturday") == DayValues("sat") == [6]
    ensures DayValues("weekday") == DayValues("weekdays") == [1, 2, 3, 4, 5]
    ensures DayValues("weekend") == DayValues("weekends") == [0, 6]
    ensures DayValues("only") == []
  {
    SundayWords();
    MondayWords();
    TuesdayWords();
    WednesdayWords();
    ThursdayWords();
    FridayWords();
    SaturdayWords();
    WeekdayWords();
    WeekendWords();
    OnlyIsNoDay();
  }

  lemma OnlyIsNoDay()
    ensures DayValues("only") == []
  {
  }

  // ---------------------------------------------------------------------
  // Properties of time values.
  // ---------------------------------------------------------------------

  /** The digit run of digits followed by a non-digit is exactly those digits. */
  lemma {:induction false} DigitRunOf(ds: string, rest: string)
    requires AllDigits(ds)
    requires rest == "" || !IsDigit(rest[0])
    ensures DigitRun(ds + rest) == |ds|
    decreases |ds|
  {
    if |ds| > 0 {
      assert (ds + rest)[1..] == ds[1..] + rest;
      DigitRunOf(ds[1..], rest);
    } else {
      assert ds + rest == rest;
    }
  }

  /** The whitespace run of whitespace followed by a non-space is exactly that whitespace. */
  lemma {:induction false} WhitespaceRunOf(ws: string, rest: string)
    requires IsBlank(ws)
    requires rest == "" || !IsWhitespace(rest[0])
    ensures WhitespaceRun(ws + rest) == |ws|
    decreases |ws|
  {
    if |ws| > 0 {
      assert (ws + rest)[1..] == ws[1..] + rest;
      WhitespaceRunOf(ws[1..], rest);
    } else {
      assert ws + rest == rest;
    }
  }

  /**
   * What `parseTimeValue` accepts: one or two hour digits, an optional `:MM`,
   * optional whitespace and an optional `am`/`pm`; the result is the 24-hour
   * clock text when it is in range and nothing otherwise.
   */
  lemma ParseTimeValueAccepts(hourText: string, minuteText: string, gap: string, period: string)
    requires 1 <= |hourText| <= 2 && AllDigits(hourText)
    requires minuteText == "" || (|minuteText| == 2 && AllDigits(minuteText))
    requires IsBlank(gap)
    requires period == "" || period == "am" || period == "pm"
    ensures var hour := To24Hour(DigitsValue(hourText), period);
            var minute := if minuteText == "" then 0 else DigitsValue(minuteText);
            ParseTimeValue(hourText + (if minuteText == "" then "" else ":" + minuteText) + gap + period)
            == if hour <= 23 && minute <= 59 then Some(ClockText(hour, minute)) else None
  {
    MatchTimeTextOf(hourText, minuteText, gap, period);
  }

  /** The match of a time text built from its parts gives back those parts. */
  lemma MatchTimeTextOf(hourText: string, minuteText: string, gap: string, period: string)
    requires 1 <= |hourText| <= 2 && AllDigits(hourText)
    requires minuteText == "" || (|minuteText| == 2 && AllDigits(minuteText))
    requires IsBlank(gap)
    requires period == "" || period == "am" || period == "pm"
    ensures MatchTimeText(hourText + (if minuteText == "" then "" else ":" + minuteText) + gap + period)
            == Some(TimeMatch(hourText, minuteText, period))
  {
    var m := if minuteText == "" then "" else ":" + minuteText;
    var tail := gap + period;
    var rest := m + tail;
    var s := hourText + rest;
    assert hourText + m + gap + period == s;
    assert rest == "" || !IsDigit(rest[0]);
    DigitRunOf(hourText, rest);
    assert s[..|hourText|] == hourText;
    assert s[|hourText|..] == rest;
    SplitMinutesOf(minuteText, tail);
    SkipWhitespaceOf(gap, period);
  }

  /** The minutes group reads back the minutes it was built from. */
  lemma SplitMinutesOf(minuteText: string, tail: string)
    requires minuteText == "" || (|minuteText| == 2 && AllDigits(minuteText))
    requires tail == "" || tail[0] != ':'
    ensures SplitMinutes((if minuteText == "" then "" else ":" + minuteText) + tail) == (minuteText, tail)
  {
    if minuteText != "" {
      var rest := ":" + minuteText + tail;
      assert rest[1..3] == minuteText;
      assert rest[3..] == tail;
    } else {
      assert "" + tail == tail;
    }
  }

  /** Skipping the whitespace before the period leaves the period. */
  lemma SkipWhitespaceOf(gap: string, period: string)
    requires IsBlank(gap)
    requires period == "" || !IsWhitespace(period[0])
    ensures SkipWhitespace(gap + period) == period
  {
    WhitespaceRunOf(gap, period);
    assert (gap + period)[|gap|..] == period;
  }

  /** An hour followed directly by `am` or `pm`. */
  lemma HourWithPeriod(hourText: string, period: string)
    requires 1 <= |hourText| <= 2 && AllDigits(hourText)
    requires period == "am" || period == "pm"
    ensures var hour := To24Hour(DigitsValue(hourText), period);
            ParseTimeValue(hourText + period) == if hour <= 23 then Some(ClockText(hour, 0)) else None
  {
    ParseTimeValueAccepts(hourText, "", "", period);
    assert hourText + "" == hourText;
    assert hourText + "" + "" + period == hourText + period;
  }

  /** An hour, a colon and two minute digits, then an optional `am` or `pm`. */
  lemma HourMinuteWithPeriod(hourText: string, minuteText: string, period: string)
    requires 1 <= |hourText| <= 2 && AllDigits(hourText)
    requires |minuteText| == 2 && AllDigits(minuteText)
    requires period == "" || period == "am" || period == "pm"
    ensures var hour := To24Hour(DigitsValue(hourText), period);
            var minute := DigitsValue(minuteText);
            ParseTimeValue(hourText + ":" + minuteText + period)
            == if hour <= 23 && minute <= 59 then Some(ClockText(hour, minute)) else None
  {
    assert minuteText != "";
    var text := hourText + (if minuteText == "" then "" else ":" + minuteText) + "" + period;
    assert text == hourText + ":" + minuteText + period;
    ParseTimeValueAccepts(hourText, minuteText, "", period);
  }

  /** A time text with minutes whose hour and minute are in range reads as their clock text. */
  lemma TimeValueIs(text: string, hourText: string, minuteText: string, period: string, hour: nat, minute: nat)
    requires 1 <= |hourText| <= 2 && AllDigits(hourText)
    requires |minuteText| == 2 && AllDigits(minuteText)
    requires period == "" || period == "am" || period == "pm"
    requires text == hourText + ":" + minuteText + period
    requires To24Hour(DigitsValue(hourText), period) == hour <= 23
    requires DigitsValue(minuteText) == minute <= 59
    ensures ParseTimeValue(text) == Some(ClockText(hour, minute))
  {
    HourMinuteWithPeriod(hourText, minuteText, period);
  }

  /** A time text with only an hour and its period, in range, reads as the hour on the clock. */
  lemma HourValueIs(text: string, hourText: string, period: string, hour: nat)
    requires 1 <= |hourText| <= 2 && AllDigits(hourText)
    requires period == "am" || period == "pm"
    requires text == hourText + period
    requires To24Hour(DigitsValue(hourText), period) == hour <= 23
    ensures ParseTimeValue(text) == Some(ClockText(hour, 0))
  {
    HourWithPeriod(hourText, period);
  }

  // Worked values of `parseTimeValue`.

  lemma ParseTimeValueMorning()
    ensures ParseTimeValue("9am") == Some(ClockText(9, 0))
  {
    HourValueIs("9am", "9", "am", 9);
  }

  lemma ParseTimeValueMidnight()
    ensures ParseTimeValue("12am") == Some(ClockText(0, 0))
  {
    HourValueIs("12am", "12", "am", 0);
  }

  lemma ParseTimeValueNoon()
    ensures ParseTimeValue("12pm") == Some(ClockText(12, 0))
  {
    HourValueIs("12pm", "12", "pm", 12);
  }

  lemma ParseTimeValueEvening()
    ensures ParseTimeValue("9:30pm") == Some(ClockText(21, 30))
  {
    TimeValueIs("9:30pm", "9", "30", "pm", 21, 30);
  }

  lemma ParseTimeValueTwentyFour()
    ensures ParseTimeValue("14:30") == Some(ClockText(14, 30))
  {
    TimeValueIs("14:30", "14", "30", "", 14, 30);
  }

  lemma ParseTimeValuePastMidnight()
    ensures ParseTimeValue("13pm") == None
  {
    HourWithPeriod("13", "pm");
    assert DigitsValue("13") == 13;
    assert "13" + "pm" == "13pm";
  }

  lemma ParseTimeValueHourTooLarge()
    ensures ParseTimeValue("24") == None
  {
    ParseTimeValueAccepts("24", "", "", "");
    assert DigitsValue("24") == 24;
    assert "24" + "" + "" + "" == "24";
  }

  lemma ParseTimeValueMinuteTooLarge()
    ensures ParseTimeValue("9:60") == None
  {
    HourMinuteWithPeriod("9", "60", "");
    assert DigitsValue("60") == 60;
    assert "9" + ":" == "9:";
    assert "9:" + "60" == "9:60";
    assert "9:60" + "" == "9:60";
  }

  /** Clock texts of the worked values. */
  lemma ClockTextExamples()
    ensures ClockText(9, 0) == "09:00" && ClockText(0, 0) == "00:00" && ClockText(12, 0) == "12:00"
    ensures ClockText(21, 30) == "21:30" && ClockText(14, 30) == "14:30"
  {
    Pad2Digits(9);
    Pad2Digits(0);
    Pad2Digits(12);
    Pad2Digits(21);
    Pad2Digits(30);
    Pad2Digits(14);
  }

  lemma ParseTimeValueThreeDigits()
    ensures ParseTimeValue("123") == None
  {
    assert DigitRun("123") == 3;
  }


  // ---------------------------------------------------------------------
  // The shape of parsed rules.
  // ---------------------------------------------------------------------

  /** A day-rule value: comma-separated single digits 0..6. */
  predicate IsDayList(v: string) {
    var pieces := Split(v, ',');
    forall k :: 0 <= k < |pieces| ==> |pieces[k]| == 1 && '0' <= pieces[k][0] <= '6'
  }

  /** A time-rule value: a time keyword, `-` and a clock text, or `between`, two clock texts and two `-`. */
  predicate IsTimeValue(v: string) {
    var pieces := Split(v, '-');
    || (|pieces| == 2 && pieces[0] in TimeKeywords && IsClockText(pieces[1]))
    || (|pieces| == 3 && pieces[0] == "between" && IsClockText(pieces[1]) && IsClockText(pieces[2]))
  }

  /** What the parser builds: day lists, time values, and `not`/`and`/`or` with one or two
      children, and never a `dayTime` rule. */
  predicate WellFormed(r: ScheduleRule)
    decreases r
  {
    match r.kind
    case DayType => r.rules == [] && IsDayList(r.value)
    case TimeType => r.rules == [] && IsTimeValue(r.value)
    case DayTimeType => false
    case NotType => |r.rules| == 1 && WellFormed(r.rules[0])
    case AndType => |r.rules| == 2 && WellFormed(r.rules[0]) && WellFormed(r.rules[1])
    case OrType => |r.rules| == 2 && WellFormed(r.rules[0]) && WellFormed(r.rules[1])
  }

  /** A clock text holds only digits and the colon. */
  lemma ClockTextChars(c: string)
    requires IsClockText(c)
    ensures '-' !in c && ',' !in c
  {
    assert forall i :: 0 <= i < 2 ==> c[i] == c[..2][i];
    assert forall i :: 3 <= i < 5 ==> c[i] == c[3..][i - 3];
  }

  /** A list of days spells a day-rule value. */
  lemma DayListTextIsDayList(days: seq<nat>)
    requires |days| > 0
    requires forall k :: 0 <= k < |days| ==> days[k] <= 6
    ensures IsDayList(DayListText(days))
    ensures Split(DayListText(days), ',') == seq(|days|, k requires 0 <= k < |days| => NatToString(days[k]))
  {
    var pieces := seq(|days|, k requires 0 <= k < |days| => NatToString(days[k]));
    forall k | 0 <= k < |pieces| ensures ',' !in pieces[k] && |pieces[k]| == 1 && '0' <= pieces[k][0] <= '6' {
      assert pieces[k] == [DigitChar(days[k])];
    }
    SplitJoin(pieces, ',');
  }

  /** A time keyword and a clock text spell a time value. */
  lemma KeywordTimeValue(keyword: string, c: string)
    requires keyword in TimeKeywords
    requires IsClockText(c)
    ensures Split(keyword + "-" + c, '-') == [keyword, c]
    ensures IsTimeValue(keyword + "-" + c)
  {
    ClockTextChars(c);
    assert '-' !in keyword;
    assert keyword + "-" + c == keyword + ['-'] + c;
    SplitPair(keyword, '-', c);
  }

  /** `between` and two clock texts spell a time value. */
  lemma BetweenTimeValue(c1: string, c2: string)
    requires IsClockText(c1) && IsClockText(c2)
    ensures Split("between-" + c1 + "-" + c2, '-') == ["between", c1, c2]
    ensures IsTimeValue("between-" + c1 + "-" + c2)
  {
    ClockTextChars(c1);
    ClockTextChars(c2);
    assert '-' !in "between";
    assert "between-" + c1 + "-" + c2 == "between" + ['-'] + c1 + ['-'] + c2;
    SplitTriple("between", '-', c1, c2);
  }

  /** Day expressions build well-formed day rules. */
  lemma DayExpressionWellFormed(tokens: seq<string>)
    ensures DayExpression(tokens).Some? ==> WellFormed(DayExpression(tokens).value)
  {
    if |DayIndices(tokens)| > 0 {
      DayListTextIsDayList(DayIndices(tokens));
    }
  }

  /** Time expressions build well-formed time rules. */
  lemma TimeExpressionWellFormed(tokens: seq<string>)
    ensures TimeExpression(tokens).Some? ==> WellFormed(TimeExpression(tokens).value)
  {
    if TimeExpression(tokens).Some? {
      var found := FirstTimeKeyword(tokens);
      var tail := tokens[IndexOfToken(tokens, tokens[found])..];
      assert tail[0] == tokens[found];
      var c1 := ParseTimeValue(tail[1]).value;
      if tail[0] == "between" && |tail| > 2 && tail[2] == "and" {
        BetweenTimeValue(c1, ParseTimeValue(tail[3]).value);
      } else {
        KeywordTimeValue(tail[0], c1);
      }
    }
  }

  /**
   * A day+time rule needs the day expression of a subset of the tokens, so it is
   * found only when the day expression of all the tokens has already succeeded.
   */
  lemma DayTimeNeedsDays(tokens: seq<string>)
    ensures DayTimeExpression(tokens).Some? ==> DayExpression(tokens).Some?
  {
    var found := FindTimeRange(Join(tokens, " "));
    if DayTimeExpression(tokens).Some? {
      var kept := TokensNotIn(tokens, found.value.whole);
      assert DayExpression(kept).Some?;
      DaysOfSubset(kept, tokens);
    }
  }

  /** Tokens drawn from `tokens` that name a day make the day expression of `tokens` succeed. */
  lemma DaysOfSubset(kept: seq<string>, tokens: seq<string>)
    requires forall k :: 0 <= k < |kept| ==> kept[k] in tokens
    ensures DayExpression(kept).Some? ==> DayExpression(tokens).Some?
  {
    if DayExpression(kept).Some? {
      DayIndicesNonEmpty(kept);
      var k :| 0 <= k < |kept| && kept[k] in DayMap;
      var j :| 0 <= j < |tokens| && tokens[j] == kept[k];
      DayIndicesNonEmpty(tokens);
    }
  }

  /** Every rule `parseTokens` returns is well formed; in particular no `dayTime` rule
      appears anywhere in it. */
  lemma {:induction false} ParsedWellFormed(tokens: seq<string>)
    ensures ParseTokens(tokens).Some? ==> WellFormed(ParseTokens(tokens).value)
    decreases |tokens|, 1
  {
    if |tokens| > 0 {
      if tokens[0] == "not" {
        ParsedWellFormed(tokens[1..]);
      }
      ConnectiveWellFormed(tokens, "and", AndType);
      ConnectiveWellFormed(tokens, "or", OrType);
      DayExpressionWellFormed(tokens);
      TimeExpressionWellFormed(tokens);
      DayTimeNeedsDays(tokens);
    }
  }

  lemma {:induction false} ConnectiveWellFormed(tokens: seq<string>, word: string, kind: RuleType)
    requires kind == AndType || kind == OrType
    ensures ParseConnective(tokens, word, kind).Some? ==> WellFormed(ParseConnective(tokens, word, kind).value)
    decreases |tokens|, 0
  {
    var index := IndexOfToken(tokens, word);
    if index >= 0 {
      ParsedWellFormed(tokens[..index]);
      ParsedWellFormed(tokens[index + 1..]);
    }
  }

  /** Parsed text is well formed, so `parse` never returns a `dayTime` rule. */
  lemma ParseWellFormed(scheduleText: string)
    ensures Parse(scheduleText).Some? ==> WellFormed(Parse(scheduleText).value)
    ensures Parse(scheduleText).Some? ==> Parse(scheduleText).value.kind != DayTimeType
  {
    ParsedWellFormed(Tokenize(ToLower(scheduleText)));
  }

  // ---------------------------------------------------------------------
  // `not`, `and` and `or` fall through when they fail.
  // ---------------------------------------------------------------------

  /** A token that is not a time keyword, put in front, does not change the time expression. */
  lemma TimeExpressionSkip(w: string, rest: seq<string>)
    requires w !in TimeKeywords
    ensures TimeExpression([w] + rest) == TimeExpression(rest)
  {
    var tokens := [w] + rest;
    assert tokens[1..] == rest;
    var j := FirstTimeKeyword(rest);
    if |rest| >= 1 && j >= 0 {
      var keyword := rest[j];
      var i := IndexOfToken(rest, keyword);
      assert IndexOfToken(tokens, keyword) == i + 1;
      assert tokens[i + 1..] == rest[i..];
    }
  }

  /** When `parseTokens` fails, every one of its cases failed. */
  lemma ParseTokensFails(tokens: seq<string>)
    requires ParseTokens(tokens).None?
    ensures ParseConnective(tokens, "and", AndType).None? && ParseConnective(tokens, "or", OrType).None?
    ensures DayExpression(tokens).None? && TimeExpression(tokens).None? && DayTimeExpression(tokens).None?
  {
  }

  /**
   * `not X` parses to the negation of X when X parses, and fails when X fails: the
   * fall-through to the later cases never finds anything, because `not` is neither
   * a day word nor a time keyword and the `and`/`or` splits fail on the left half
   * or on the same right half as they do for X.
   */
  lemma {:induction false} NotPrefix(rest: seq<string>)
    ensures ParseTokens(["not"] + rest)
            == if ParseTokens(rest).Some? then Some(ScheduleRule(NotType, "", [ParseTokens(rest).value])) else None
    decreases |rest|, 2
  {
    var tokens := ["not"] + rest;
    assert tokens[1..] == rest;
    if ParseTokens(rest).None? {
      NotCasesFail(rest);
      NotFails(rest);
    }
  }

  /** Each case of `not X` other than the negation fails when X fails. */
  lemma {:induction false} NotCasesFail(rest: seq<string>)
    requires ParseTokens(rest).None?
    ensures ParseConnective(["not"] + rest, "and", AndType).None?
    ensures ParseConnective(["not"] + rest, "or", OrType).None?
    ensures DayExpression(["not"] + rest).None?
    ensures TimeExpression(["not"] + rest).None?
    decreases |rest|, 1
  {
    ParseTokensFails(rest);
    NotConnectiveFails(rest, "and", AndType);
    NotConnectiveFails(rest, "or", OrType);
    NotDayFails(rest);
    TimeExpressionSkip("not", rest);
  }

  /** `not` names no day, so it adds none to the day expression. */
  lemma NotDayFails(rest: seq<string>)
    requires DayExpression(rest).None?
    ensures DayExpression(["not"] + rest).None?
  {
    DayIndicesAppend(["not"], rest);
    CollectSingle(DayValues, "not");
  }

  /** With all its other cases failed, `not X` fails. */
  lemma NotFails(rest: seq<string>)
    requires ParseTokens(rest).None?
    requires ParseConnective(["not"] + rest, "and", AndType).None?
    requires ParseConnective(["not"] + rest, "or", OrType).None?
    requires DayExpression(["not"] + rest).None?
    requires TimeExpression(["not"] + rest).None?
    ensures ParseTokens(["not"] + rest).None?
  {
    var tokens := ["not"] + rest;
    assert tokens[1..] == rest;
    DayTimeNeedsDays(tokens);
    assert ParseSimple(tokens).None?;
  }

  lemma {:induction false} NotConnectiveFails(rest: seq<string>, word: string, kind: RuleType)
    requires word != "not"
    requires ParseConnective(rest, word, kind).None?
    ensures ParseConnective(["not"] + rest, word, kind).None?
    decreases |rest|, 0
  {
    var tokens := ["not"] + rest;
    var i := IndexOfToken(rest, word);
    IndexAfterNot(rest, word);
    if i >= 0 {
      assert tokens[..i + 1] == ["not"] + rest[..i];
      assert tokens[i + 2..] == rest[i + 1..];
      NotPrefix(rest[..i]);
      assert ParseTokens(tokens[..i + 1]).None? || ParseTokens(tokens[i + 2..]).None?;
      ConnectiveFailsAt(tokens, word, kind, i + 1);
    }
  }

  /** A leading `not` shifts the first occurrence of any other word by one. */
  lemma IndexAfterNot(rest: seq<string>, word: string)
    requires word != "not"
    ensures var i := IndexOfToken(rest, word);
            IndexOfToken(["not"] + rest, word) == if i < 0 then -1 else i + 1
  {
    assert (["not"] + rest)[1..] == rest;
  }

  /** The split at the first `word` fails when either half fails to parse. */
  lemma ConnectiveFailsAt(tokens: seq<string>, word: string, kind: RuleType, index: nat)
    requires IndexOfToken(tokens, word) == index
    requires ParseTokens(tokens[..index]).None? || ParseTokens(tokens[index + 1..]).None?
    ensures ParseConnective(tokens, word, kind).None?
  {
  }

  /** Double negation: `not not X` parses exactly when X does. */
  lemma NotNot(rest: seq<string>)
    ensures ParseTokens(["not", "not"] + rest)
            == if ParseTokens(rest).Some?
               then Some(ScheduleRule(NotType, "", [ScheduleRule(NotType, "", [ParseTokens(rest).value])]))
               else None
  {
    var once := ["not"] + rest;
    assert ["not"] + once == ["not", "not"] + rest;
    NotPrefix(rest);
    NotPrefix(once);
    NestedNot(ParseTokens(["not", "not"] + rest), ParseTokens(once), ParseTokens(rest));
  }

  /** Two layers of `not`, each wrapping what the layer below parsed. */
  lemma NestedNot(twice: Option<ScheduleRule>, once: Option<ScheduleRule>, inner: Option<ScheduleRule>)
    requires once == if inner.Some? then Some(ScheduleRule(NotType, "", [inner.value])) else None
    requires twice == if once.Some? then Some(ScheduleRule(NotType, "", [once.value])) else None
    ensures twice == if inner.Some? then Some(ScheduleRule(NotType, "", [ScheduleRule(NotType, "", [inner.value])])) else None
  {
  }

  // ---------------------------------------------------------------------
  // `between 10pm and 2am`.
  // ---------------------------------------------------------------------

  /** A time value starts with a digit and holds no `-`. */
  lemma TimeTextChars(s: string)
    requires ParseTimeValue(s).Some?
    ensures |s| > 0 && IsDigit(s[0])
    ensures '-' !in s
  {
    assert MatchTimeText(s).Some?;
    MatchedTextChars(s);
  }

  /** Text the time pattern matches starts with a digit and holds no `-`. */
  lemma MatchedTextChars(s: string)
    requires MatchTimeText(s).Some?
    ensures |s| > 0 && IsDigit(s[0])
    ensures '-' !in s
  {
    var h := DigitRun(s);
    PeriodNoDash(SplitMinutes(s[h..]).1);
    MinutesNoDash(s[h..]);
    NoCharAcross(s, h, '-');
  }

  /** Text whose whitespace-trimmed end is a period or nothing holds no `-`. */
  lemma PeriodNoDash(after: string)
    requires SkipWhitespace(after) in {"", "am", "pm"}
    ensures '-' !in after
  {
    var w := WhitespaceRun(after);
    assert '-' !in after[w..];
    NoCharAcross(after, w, '-');
  }

  /** The optional minutes group adds no `-`. */
  lemma MinutesNoDash(rest: string)
    requires '-' !in SplitMinutes(rest).1
    ensures '-' !in rest
  {
    if SplitMinutes(rest).0 != "" {
      NoCharAcross(rest, 3, '-');
    }
  }

  /** A character missing from the first `k` places and from the rest is missing from `s`. */
  lemma NoCharAcross(s: string, k: nat, c: char)
    requires k <= |s| && (forall i :: 0 <= i < k ==> s[i] != c) && c !in s[k..]
    ensures c !in s
  {
    forall i | k <= i < |s| ensures s[i] != c {
      assert s[i] == s[k..][i - k];
    }
  }

  /** Every day word starts with a letter. */
  lemma DayWordLetters(w: string)
    requires w in DayMap
    ensures |w| > 0 && 'a' <= w[0] <= 'z'
  {
  }

  /** Text without `-` holds no time range. */
  lemma {:induction false} NoDashNoRange(s: string)
    requires '-' !in s
    ensures FindTimeRange(s).None?
    decreases |s|
  {
    if |s| > 0 {
      NoDashNoRange(s[1..]);
    }
  }

  /** A lone time value is not a schedule: it is not a day and has no keyword or range. */
  lemma LoneTimeFails(b: string)
    requires ParseTimeValue(b).Some?
    ensures ParseTokens([b]).None?
  {
    TimeTextChars(b);
    assert b !in DayMap by {
      if b in DayMap {
        DayWordLetters(b);
      }
    }
    DayValuesNonEmpty(b);
    CollectSingle(DayValues, b);
    assert DayExpression([b]).None?;
    assert Join([b], " ") == b;
    NoDashNoRange(b);
    assert DayTimeExpression([b]).None?;
    SingleTokenFails(b);
  }

  /** One token that is not `not`, names no day and holds no range parses to nothing. */
  lemma SingleTokenFails(b: string)
    requires b != "not" && DayExpression([b]).None? && DayTimeExpression([b]).None?
    ensures ParseTokens([b]).None?
  {
    var tokens := [b];
    assert ParseConnective(tokens, "and", AndType).None? by {
      var index := IndexOfToken(tokens, "and");
      if index >= 0 {
        assert tokens[..index] == [];
      }
    }
    assert ParseConnective(tokens, "or", OrType).None? by {
      var index := IndexOfToken(tokens, "or");
      if index >= 0 {
        assert tokens[..index] == [];
      }
    }
  }

  /**
   * `between A and B`: the first `and` splits it into `between A` and `B`, and the
   * lone `B` does not parse, so the `and` case falls through and the time case
   * reads the range. This fall-through is the only way a `between` range parses.
   */
  lemma BetweenAndFallsThrough(a: string, b: string)
    requires ParseTimeValue(a).Some? && ParseTimeValue(b).Some?
    ensures ParseConnective(["between", a, "and", b], "and", AndType).None?
    ensures ParseTokens(["between", a, "and", b])
            == Some(ScheduleRule(TimeType, "between-" + ParseTimeValue(a).value + "-" + ParseTimeValue(b).value, []))
  {
    var tokens := ["between", a, "and", b];
    TimeTextChars(a);
    TimeTextChars(b);
    LoneTimeFails(b);
    BetweenCasesFail(a, b);
    BetweenRange(a, b);
    TimeExpressionAtKeyword(tokens);
    ParseTokensFallsToTime(tokens);
  }

  /** The tokens `between A and B` read as a range when A and B are time values. */
  lemma BetweenRange(a: string, b: string)
    requires ParseTimeValue(a).Some? && ParseTimeValue(b).Some?
    ensures TimeRuleAfter(["between", a, "and", b])
            == Some(ScheduleRule(TimeType, "between-" + ParseTimeValue(a).value + "-" + ParseTimeValue(b).value, []))
  {
    TimeTextChars(a);
    TimeTextChars(b);
    RangeAfter(["between", a, "and", b], ParseTimeValue(a).value, ParseTimeValue(b).value);
  }

  /** The tail `between A and B`, with both times read, gives the range rule. */
  lemma RangeAfter(tail: seq<string>, start: string, end: string)
    requires |tail| == 4 && tail[0] == "between" && tail[2] == "and" && tail[1] != "" && tail[3] != ""
    requires ParseTimeValue(tail[1]) == Some(start) && ParseTimeValue(tail[3]) == Some(end)
    ensures TimeRuleAfter(tail) == Some(ScheduleRule(TimeType, "between-" + start + "-" + end, []))
  {
    var r := TimeRuleAfter(tail);
    assert r.Some? && r.value.kind == TimeType && r.value.rules == [];
    assert r.value.value == "between-" + start + "-" + end;
  }

  /** In `between A and B` with A and B starting with digits and a lone B failing, the
      `and` split, the `or` split and the day list all fail. */
  lemma BetweenCasesFail(a: string, b: string)
    requires |a| > 0 && IsDigit(a[0]) && |b| > 0 && IsDigit(b[0])
    requires ParseTokens([b]).None?
    ensures ParseConnective(["between", a, "and", b], "and", AndType).None?
    ensures ParseConnective(["between", a, "and", b], "or", OrType).None?
    ensures DayExpression(["between", a, "and", b]).None?
  {
    var tokens := ["between", a, "and", b];
    assert a != "and" && a != "or" && b != "or";
    assert IndexOfToken(tokens, "and") == 2;
    assert tokens[3..] == [b];
    assert "or" !in tokens;
    NoDayWords(tokens);
  }

  /** Tokens that all start with a digit or are `between`/`and` hold no day word. */
  lemma NoDayWords(tokens: seq<string>)
    requires forall k :: 0 <= k < |tokens| ==> tokens[k] in {"between", "and"} || (|tokens[k]| > 0 && IsDigit(tokens[k][0]))
    ensures DayExpression(tokens).None?
  {
    forall k | 0 <= k < |tokens| ensures tokens[k] !in DayMap {
      if tokens[k] in DayMap {
        DayWordLetters(tokens[k]);
      }
    }
    DayIndicesNonEmpty(tokens);
  }

  /** Tokens that start with a time keyword are read from that keyword. */
  lemma TimeExpressionAtKeyword(tokens: seq<string>)
    requires |tokens| >= 2 && tokens[0] in TimeKeywords
    ensures TimeExpression(tokens) == TimeRuleAfter(tokens)
  {
    assert FirstTimeKeyword(tokens) == 0;
    assert IndexOfToken(tokens, tokens[0]) == 0;
    assert tokens[0..] == tokens;
  }

  /** Past the `not`, `and`, `or` and day cases, `parseTokens` gives the time expression if any. */
  lemma ParseTokensFallsToTime(tokens: seq<string>)
    requires |tokens| > 0 && tokens[0] != "not"
    requires ParseConnective(tokens, "and", AndType).None? && ParseConnective(tokens, "or", OrType).None?
    requires DayExpression(tokens).None?
    ensures ParseTokens(tokens) == if TimeExpression(tokens).Some? then TimeExpression(tokens) else DayTimeExpression(tokens)
  {
    assert ParseTokens(tokens) == ParseSimple(tokens);
  }
}
