/**
 * Evaluation of schedule rules at an instant (class `ScheduleEvaluator` of
 * src/helpers/scheduleParser.ts) and `isPartnerAvailable`.
 *
 * The source reads `value` strings back with `split`, `parseInt` and
 * comparisons on JavaScript numbers; those steps are modelled as written, so a
 * thrown TypeError is the result `Throws` and a failed `parseInt` is `NaN`.
 */
module ScheduleEvaluator {
  import opened JsBuiltins
  import opened ScheduleParser

  type Weekday = d: nat | d <= 6
  type Hour = h: nat | h <= 23
  type Minute = m: nat | m <= 59

  /** The instant a rule is evaluated at: `getDay()` (0 = Sunday), `getHours()`, `getMinutes()`. */
  datatype Instant = Instant(weekday: Weekday, hour: Hour, minute: Minute)

  /** Minutes since midnight. */
  function MinuteOfDay(t: Instant): nat {
    t.hour * 60 + t.minute
  }

  /** JavaScript `a < b` and `a <= b` on numbers: false whenever either side is NaN. */
  predicate NumLt(a: Num, b: Num) { a.Int? && b.Int? && a.i < b.i }
  predicate NumLe(a: Num, b: Num) { a.Int? && b.Int? && a.i <= b.i }

  /** `!x` on an evaluation result. */
  function Negate(x: Result<bool>): Result<bool> {
    match x
    case Ok(b) => Ok(!b)
    case Throws => Throws
  }

  /** `ScheduleEvaluator.evaluate`: no rule means always available. */
  function Evaluate(rule: Option<ScheduleRule>, t: Instant): Result<bool> {
    match rule
    case None => Ok(true)
    case Some(r) => EvaluateRule(r, t)
  }

  /** `evaluate` on a rule: the switch over its type. */
  function EvaluateRule(r: ScheduleRule, t: Instant): Result<bool>
    decreases r, 2, 0
  {
    match r.kind
    case DayType => Ok(EvaluateDayRule(r.value, t))
    case TimeType => EvaluateTimeRule(r.value, t)
    case DayTimeType => EvaluateDayTimeRule(r, t)
    case NotType =>
      // `rules[0]` of an empty list is undefined, and `evaluate(undefined)` is true.
      if |r.rules| == 0 then Ok(false) else Negate(EvaluateRule(r.rules[0], t))
    case AndType => Every(r, 0, t)
    case OrType => Any(r, 0, t)
  }

  /** `rules.every(...)` from index `i`: stops at the first child that is false or throws. */
  function Every(r: ScheduleRule, i: nat, t: Instant): Result<bool>
    decreases r, 0, |r.rules| - i
  {
    if i >= |r.rules| then Ok(true)
    else
      match EvaluateRule(r.rules[i], t)
      case Throws => Throws
      case Ok(b) => if !b then Ok(false) else Every(r, i + 1, t)
  }

  /** `rules.some(...)` from index `i`: stops at the first child that is true or throws. */
  function Any(r: ScheduleRule, i: nat, t: Instant): Result<bool>
    decreases r, 0, |r.rules| - i
  {
    if i >= |r.rules| then Ok(false)
    else
      match EvaluateRule(r.rules[i], t)
      case Throws => Throws
      case Ok(b) => if b then Ok(true) else Any(r, i + 1, t)
  }

  /** `value.split(',').map(d => parseInt(d))`. */
  function DayNumbers(value: string): seq<Num> {
    var pieces := Split(value, ',');
    seq(|pieces|, k requires 0 <= k < |pieces| => ParseInt(pieces[k]))
  }

  /** `evaluateDayRule`: an empty value allows every day; otherwise the weekday must be listed. */
  function EvaluateDayRule(value: string, t: Instant): bool {
    if value == "" then true else Int(t.weekday) in DayNumbers(value)
  }

  /**
   * `timeStringToMinutes`: `undefined` throws on `.split`; otherwise hours times 60
   * plus the minutes, where missing or unparseable minutes count as 0 (`|| 0`) and
   * unparseable hours give NaN.
   */
  function TimeStringToMinutes(timeStr: Option<string>): Result<Num> {
    match timeStr
    case None => Throws
    case Some(s) => MinutesOfParts(Split(s, ':'))
  }

  /** The minutes of the pieces of `timeStr.split(':')`: hours from the first piece. */
  function MinutesOfParts(parts: seq<string>): Result<Num>
    requires |parts| >= 1
  {
    var hours := ParseInt(parts[0]);
    if hours.NaN? then Ok(NaN) else Ok(Int(hours.i * 60 + MinuteField(parts)))
  }

  /** `parseInt(parts[1]) || 0`: a missing or unparseable minute piece counts as 0. */
  function MinuteField(parts: seq<string>): int
    requires |parts| >= 1
  {
    if |parts| >= 2 && ParseInt(parts[1]).Int? then ParseInt(parts[1]).i else 0
  }

  /** The pieces of `value.split('-', 2)`: the operator and, when there is one, the time text. */
  function OperatorOf(value: string): string {
    SplitLimit(value, '-', 2)[0]
  }

  function TimeTextOf(value: string): Option<string> {
    var parts := SplitLimit(value, '-', 2);
    if |parts| >= 2 then Some(parts[1]) else None
  }

  /**
   * The `between` comparison of `evaluateTimeRule`: either time throwing throws; a range
   * whose start is not after its end holds between them, otherwise it wraps past midnight.
   */
  function InRange(startMinutes: Result<Num>, endMinutes: Result<Num>, current: Num): Result<bool> {
    if startMinutes.Throws? || endMinutes.Throws? then Throws
    else
      var start := startMinutes.value;
      var end := endMinutes.value;
      if NumLe(start, end) then Ok(NumLe(start, current) && NumLe(current, end))
      else Ok(NumLe(start, current) || NumLe(current, end))
  }

  /** On minutes that are numbers, `InRange` is the inclusive range, wrapping when start > end. */
  lemma InRangeMinutes(s: int, e: int, m: int)
    ensures InRange(Ok(Int(s)), Ok(Int(e)), Int(m)) == Ok(if s <= e then s <= m <= e else s <= m || m <= e)
  {
  }

  /** `evaluateTimeRule`: compare minutes since midnight with the rule's time. */
  function EvaluateTimeRule(value: string, t: Instant): Result<bool> {
    if value == "" then Ok(true)
    else
      var operator := OperatorOf(value);
      var timeStr := TimeTextOf(value);
      var current := Int(MinuteOfDay(t));
      if operator == "between" then
        match timeStr
        case None => Throws
        case Some(ts) =>
          var pieces := Split(ts, '-');
          InRange(TimeStringToMinutes(Some(pieces[0])),
                  TimeStringToMinutes(if |pieces| >= 2 then Some(pieces[1]) else None), current)
      else
        match TimeStringToMinutes(timeStr)
        case Throws => Throws
        case Ok(target) => Ok(Compare(operator, current, target))
  }

  /** The keyword comparisons of `evaluateTimeRule`; an unknown operator holds. */
  function Compare(operator: string, current: Num, target: Num): bool {
    if operator == "before" then NumLt(current, target)
    else if operator == "after" then NumLt(target, current)
    else if operator == "until" then NumLe(current, target)
    else if operator == "from" then NumLe(target, current)
    else true
  }

  /** `evaluateDayTimeRule`: the day (first child) must hold, then the rule's own value is
      read as a time rule. */
  function EvaluateDayTimeRule(r: ScheduleRule, t: Instant): Result<bool>
    decreases r, 1, 0
  {
    if |r.rules| == 0 then Ok(true)
    else
      match EvaluateRule(r.rules[0], t)
      case Throws => Throws
      case Ok(dayMatches) => if !dayMatches then Ok(false) else EvaluateTimeRule(r.value, t)
  }

  /** `isPartnerAvailable`: parse the schedule text and evaluate it. */
  function IsPartnerAvailable(scheduleText: string, t: Instant): Result<bool> {
    Evaluate(Parse(scheduleText), t)
  }

  // ---------------------------------------------------------------------
  // Day rules.
  // ---------------------------------------------------------------------

  /** The day numbers read back from a list of days are those days. */
  lemma DayNumbersOfList(days: seq<nat>)
    requires |days| > 0
    requires forall k :: 0 <= k < |days| ==> days[k] <= 6
    ensures DayListText(days) != ""
    ensures |DayNumbers(DayListText(days))| == |days|
    ensures forall k :: 0 <= k < |days| ==> DayNumbers(DayListText(days))[k] == Int(days[k])
  {
    DayListTextIsDayList(days);
    var value := DayListText(days);
    var numbers := DayNumbers(value);
    assert |numbers| == |days|;
    forall k | 0 <= k < |days| ensures numbers[k] == Int(days[k]) {
      ParseIntNatToString(days[k]);
    }
    assert value != "" by {
      assert |Split(value, ',')[0]| == 1;
    }
  }

  /** A day rule built from a list of days holds exactly on the listed weekdays. */
  lemma DayRuleHolds(days: seq<nat>, t: Instant)
    requires |days| > 0
    requires forall k :: 0 <= k < |days| ==> days[k] <= 6
    ensures EvaluateRule(ScheduleRule(DayType, DayListText(days), []), t) == Ok(t.weekday in days)
  {
    DayNumbersOfList(days);
    var numbers := DayNumbers(DayListText(days));
    if t.weekday in days {
      var k :| 0 <= k < |days| && days[k] == t.weekday;
      assert numbers[k] == Int(t.weekday);
    }
  }

  /**
   * The rule a day expression builds holds exactly when some token names the
   * instant's weekday; tokens that are not day words are ignored.
   */
  lemma DayExpressionHolds(tokens: seq<string>, t: Instant)
    requires DayExpression(tokens).Some?
    ensures EvaluateRule(DayExpression(tokens).value, t) == Ok(t.weekday in DayIndices(tokens))
    ensures EvaluateRule(DayExpression(tokens).value, t).value
            <==> exists k :: 0 <= k < |tokens| && t.weekday in DayValues(tokens[k])
  {
    DayRuleHolds(DayIndices(tokens), t);
    DayIndicesMember(tokens, t.weekday);
  }

  // ---------------------------------------------------------------------
  // Time rules.
  // ---------------------------------------------------------------------

  /** The minutes since midnight a clock text stands for. */
  function ClockMinutes(c: string): nat
    requires IsClockText(c)
  {
    ClockHour(c) * 60 + ClockMinute(c)
  }

  /** `timeStringToMinutes` reads a clock text as its minutes since midnight. */
  lemma ClockTextMinutes(c: string)
    requires IsClockText(c)
    ensures TimeStringToMinutes(Some(c)) == Ok(Int(ClockMinutes(c)))
  {
    ClockSplit(c);
    ParseIntDigits(c[..2]);
    ParseIntDigits(c[3..]);
    MinutesOfPieces(c, c[..2], c[3..], ClockHour(c), ClockMinute(c), ClockMinutes(c));
  }

  /** A time text that splits into an hour and a minute piece, both numbers. */
  lemma MinutesOfPieces(s: string, h: string, m: string, hour: int, minute: int, total: int)
    requires Split(s, ':') == [h, m]
    requires ParseInt(h) == Int(hour) && ParseInt(m) == Int(minute)
    requires total == hour * 60 + minute
    ensures TimeStringToMinutes(Some(s)) == Ok(Int(total))
  {
    PartsMinutes([h, m], hour, minute, total);
  }

  /** Two numeric pieces give hours times 60 plus minutes. */
  lemma PartsMinutes(parts: seq<string>, hour: int, minute: int, total: int)
    requires |parts| == 2
    requires ParseInt(parts[0]) == Int(hour) && ParseInt(parts[1]) == Int(minute)
    requires total == hour * 60 + minute
    ensures MinutesOfParts(parts) == Ok(Int(total))
  {
    var r := MinutesOfParts(parts);
    assert MinuteField(parts) == minute;
    assert r.Ok? && r.value.Int? && r.value.i == total;
    assert r.value == Int(total);
  }

  /** A clock text splits at its colon into hour and minute digits. */
  lemma ClockSplit(c: string)
    requires IsClockText(c)
    ensures Split(c, ':') == [c[..2], c[3..]]
  {
    assert c == c[..2] + [':'] + c[3..];
    assert forall i :: 0 <= i < 2 ==> c[..2][i] != ':';
    assert forall i :: 0 <= i < 2 ==> c[3..][i] != ':';
    SplitPair(c[..2], ':', c[3..]);
  }

  /**
   * `before`, `after`, `until` and `from` compare minutes since midnight with the
   * rule's time by `<`, `>`, `<=` and `>=`.
   */
  lemma KeywordTimeRuleHolds(keyword: string, c: string, t: Instant)
    requires keyword in {"before", "after", "until", "from"}
    requires IsClockText(c)
    ensures var result := EvaluateRule(ScheduleRule(TimeType, keyword + "-" + c, []), t);
            && (keyword == "before" ==> result == Ok(MinuteOfDay(t) < ClockMinutes(c)))
            && (keyword == "after" ==> result == Ok(MinuteOfDay(t) > ClockMinutes(c)))
            && (keyword == "until" ==> result == Ok(MinuteOfDay(t) <= ClockMinutes(c)))
            && (keyword == "from" ==> result == Ok(MinuteOfDay(t) >= ClockMinutes(c)))
  {
    KeywordTimeValue(keyword, c);
    var value := keyword + "-" + c;
    assert OperatorOf(value) == keyword;
    assert TimeTextOf(value) == Some(c);
    ClockTextMinutes(c);
    assert EvaluateTimeRule(value, t) == Ok(Compare(keyword, Int(MinuteOfDay(t)), Int(ClockMinutes(c))));
  }

  /**
   * Every `between` rule throws: `split('-', 2)` keeps only the start time, which
   * holds no `-`, so the end time is undefined and `timeStringToMinutes` throws on it.
   */
  lemma BetweenThrows(rest: string, t: Instant)
    ensures EvaluateTimeRule("between-" + rest, t) == Throws
  {
    var value := "between-" + rest;
    assert value == "between" + ['-'] + rest;
    assert '-' !in "between";
    SplitFirst("between", '-', rest);
    assert OperatorOf(value) == "between";
    var ts := Split(rest, '-')[0];
    assert TimeTextOf(value) == Some(ts);
    SplitNoSeparator(ts, '-');
  }

  /** A parsed `between` rule cannot be evaluated. */
  lemma BetweenRuleThrows(r: ScheduleRule, t: Instant)
    requires r.kind == TimeType && IsTimeValue(r.value)
    requires Split(r.value, '-')[0] == "between"
    ensures EvaluateRule(r, t) == Throws
  {
    var pieces := Split(r.value, '-');
    assert r.value == Join(pieces, "-") by {
      JoinSplit(r.value, '-');
    }
    assert r.value == "between-" + Join(pieces[1..], "-");
    BetweenThrows(Join(pieces[1..], "-"), t);
  }

  // ---------------------------------------------------------------------
  // Day+time rules.
  // ---------------------------------------------------------------------

  /**
   * A `dayTime` rule "HH:MM-HH:MM" checks only its day: the start time lands in the
   * operator slot, which is no time keyword, so the time check is the default `true`.
   */
  lemma DayTimeChecksDayOnly(c1: string, c2: string, day: ScheduleRule, t: Instant)
    requires IsClockText(c1) && IsClockText(c2)
    ensures EvaluateRule(ScheduleRule(DayTimeType, c1 + "-" + c2, [day]), t) == EvaluateRule(day, t)
  {
    ClockRangeTimeIsTrue(c1, c2, t);
  }

  /** Read as a time rule, "HH:MM-HH:MM" has no time keyword in its operator slot and holds. */
  lemma ClockRangeTimeIsTrue(c1: string, c2: string, t: Instant)
    requires IsClockText(c1) && IsClockText(c2)
    ensures EvaluateTimeRule(c1 + "-" + c2, t) == Ok(true)
  {
    var value := c1 + "-" + c2;
    ClockTextChars(c1);
    ClockTextChars(c2);
    assert value == c1 + ['-'] + c2;
    SplitPair(c1, '-', c2);
    assert OperatorOf(value) == c1;
    assert TimeTextOf(value) == Some(c2);
    assert IsDigit(c1[0]);
    assert c1 !in {"between", "before", "after", "until", "from"};
    ClockTextMinutes(c2);
  }

  // ---------------------------------------------------------------------
  // Connectives.
  // ---------------------------------------------------------------------

  /** When every child evaluates without throwing, `every` is the conjunction of their values. */
  lemma {:induction false} EveryHolds(r: ScheduleRule, i: nat, t: Instant)
    requires forall j :: i <= j < |r.rules| ==> EvaluateRule(r.rules[j], t).Ok?
    ensures Every(r, i, t) == Ok(forall j :: i <= j < |r.rules| ==> EvaluateRule(r.rules[j], t).value)
    decreases |r.rules| - i
  {
    if i < |r.rules| {
      EveryHolds(r, i + 1, t);
    }
  }

  /** When every child evaluates without throwing, `some` is the disjunction of their values. */
  lemma {:induction false} AnyHolds(r: ScheduleRule, i: nat, t: Instant)
    requires forall j :: i <= j < |r.rules| ==> EvaluateRule(r.rules[j], t).Ok?
    ensures Any(r, i, t) == Ok(exists j :: i <= j < |r.rules| && EvaluateRule(r.rules[j], t).value)
    decreases |r.rules| - i
  {
    if i < |r.rules| {
      AnyHolds(r, i + 1, t);
    }
  }

  /** `and` holds when both children hold, `or` when either does. */
  lemma ConnectiveHolds(kind: RuleType, a: ScheduleRule, b: ScheduleRule, t: Instant)
    requires kind == AndType || kind == OrType
    requires EvaluateRule(a, t).Ok? && EvaluateRule(b, t).Ok?
    ensures kind == AndType ==> EvaluateRule(ScheduleRule(kind, "", [a, b]), t)
                                == Ok(EvaluateRule(a, t).value && EvaluateRule(b, t).value)
    ensures kind == OrType ==> EvaluateRule(ScheduleRule(kind, "", [a, b]), t)
                               == Ok(EvaluateRule(a, t).value || EvaluateRule(b, t).value)
  {
    var r := ScheduleRule(kind, "", [a, b]);
    EveryHolds(r, 0, t);
    AnyHolds(r, 0, t);
  }

  // ---------------------------------------------------------------------
  // Parsed rules.
  // ---------------------------------------------------------------------

  /** Some time rule in `r` is a `between` rule. */
  predicate HasBetween(r: ScheduleRule)
    decreases r
  {
    || (r.kind == TimeType && Split(r.value, '-')[0] == "between")
    || exists i :: 0 <= i < |r.rules| && HasBetween(r.rules[i])
  }

  /** A parsed rule without a `between` never throws: `between` is the only source of errors. */
  lemma {:induction false} EvaluateWithoutBetween(r: ScheduleRule, t: Instant)
    requires WellFormed(r) && !HasBetween(r)
    ensures EvaluateRule(r, t).Ok?
    decreases r, 1
  {
    match r.kind
    case DayType =>
    case TimeType =>
      TimeWithoutBetween(r, t);
    case DayTimeType =>
    case NotType =>
      assert !HasBetween(r.rules[0]);
      EvaluateWithoutBetween(r.rules[0], t);
    case AndType =>
      ConnectiveWithoutBetween(r, t);
    case OrType =>
      ConnectiveWithoutBetween(r, t);
  }

  /** A parsed time rule other than `between` compares against a clock text's minutes. */
  lemma TimeWithoutBetween(r: ScheduleRule, t: Instant)
    requires r.kind == TimeType && WellFormed(r) && !HasBetween(r)
    ensures EvaluateRule(r, t).Ok?
  {
    var pieces := Split(r.value, '-');
    assert OperatorOf(r.value) == pieces[0];
    assert TimeTextOf(r.value) == Some(pieces[1]);
    ClockTextMinutes(pieces[1]);
  }

  lemma {:induction false} ConnectiveWithoutBetween(r: ScheduleRule, t: Instant)
    requires (r.kind == AndType || r.kind == OrType) && WellFormed(r) && !HasBetween(r)
    ensures EvaluateRule(r, t).Ok?
    decreases r, 0
  {
    assert !HasBetween(r.rules[0]) && !HasBetween(r.rules[1]);
    EvaluateWithoutBetween(r.rules[0], t);
    EvaluateWithoutBetween(r.rules[1], t);
    PairOk(r, t);
  }

  /** An `and` or `or` of two rules that evaluate without throwing does not throw. */
  lemma PairOk(r: ScheduleRule, t: Instant)
    requires (r.kind == AndType || r.kind == OrType) && |r.rules| == 2
    requires EvaluateRule(r.rules[0], t).Ok? && EvaluateRule(r.rules[1], t).Ok?
    ensures EvaluateRule(r, t).Ok?
  {
    assert forall j :: 0 <= j < |r.rules| ==> EvaluateRule(r.rules[j], t).Ok?;
    if r.kind == AndType {
      EveryHolds(r, 0, t);
    } else {
      AnyHolds(r, 0, t);
    }
  }

  /** Blank schedule text means the partner is always available. */
  lemma BlankIsAvailable(scheduleText: string, t: Instant)
    requires IsBlank(scheduleText)
    ensures IsPartnerAvailable(scheduleText, t) == Ok(true)
  {
    ParseBlank(scheduleText);
  }

  /** `not X` evaluates to the negation of X when X parses; when X does not, nothing
      parses and the partner counts as available. */
  lemma NotEvaluates(rest: seq<string>, t: Instant)
    ensures Evaluate(ParseTokens(["not"] + rest), t)
            == if ParseTokens(rest).Some? then Negate(Evaluate(ParseTokens(rest), t)) else Ok(true)
  {
    NotPrefix(rest);
  }

  /** Double negation cancels: `not not X` evaluates as X whenever X parses. */
  lemma NotNotEvaluates(rest: seq<string>, t: Instant)
    ensures Evaluate(ParseTokens(["not", "not"] + rest), t) == Evaluate(ParseTokens(rest), t)
  {
    NotNot(rest);
    if ParseTokens(rest).Some? {
      var r := ParseTokens(rest).value;
      var x := EvaluateRule(r, t);
      assert EvaluateRule(ScheduleRule(NotType, "", [r]), t) == Negate(x);
      assert EvaluateRule(ScheduleRule(NotType, "", [ScheduleRule(NotType, "", [r])]), t) == Negate(Negate(x));
      assert Negate(Negate(x)) == x;
    }
  }
}
