# Stream collab scheduler, helper core in Dafny

The stream collab scheduler keeps a store of games to stream and of streaming partners. Each game has a deadline, asks to partners and tags. Each partner has a schedule, a busy-until date and loved/hated tags. This project models the pure and loop-based helpers the application is built on, and proves what they promise:

- **Availability-schedule language** (`src/helpers/scheduleParser.ts`):
  - a tokenizer;
  - a recursive-descent parser from schedule text to a rule tree (`not`, `and`, `or`, day lists, time keywords, day+time ranges);
  - an evaluator of a rule at an instant;
  - a printer that renders a rule as readable text.

  The model follows the code as written, quirks included: `not`/`and`/`or` fall through on failure, a `dayTime` rule is never produced, and `between` rules throw when evaluated or described. A separate module states the evidently intended readings and proves them (see Findings).
- **Partner ordering** (`sortPartners`): a multi-key comparator sort over availability, busy-until, tag score, last-streamed date and name.
- **Unmet-game ordering** (`sortUnmetGames`): trashed games are dropped, games with a deadline are sorted by deadline, then games without one by ask count, descending.
- **Pending events** (`calculatePendingEvents`): the Streaming/Asking events of one partner over the games that are not done.
- **Tag collection** (`getAllUniqueTags`): the sorted set of every game tag and every partner love/hate tag.
- **Date formatting** (`formatDate`): the three numeric templates and `pad`.
- **Steam URL helpers** (`getSteamAppIdFromUrl`, `getSteamCoverUrl`).

Files and modules:

- `js_builtins.dfy` (`JsBuiltins`): the JavaScript built-ins the source leans on, written out: `parseInt`, `split` with and without a limit, `join`, `includes`, `toLowerCase`, `trim`, `padStart`, `filter`, `localeCompare`. Errors are modelled as values: a thrown `TypeError` is `Throws`, and a failed `parseInt` is `NaN`.
- `sorting.dfy` (`Sorting`): `Array.prototype.sort`. It is a stable insertion sort, as a function and as an in-place method on an array. Stability is proved, and so is the fact that every stable sort by a total preorder gives the same output.
- `types.dfy` (`Types`): the records of `src/types.ts` the helpers read.
- One file per helper: `schedule_parser.dfy`, `schedule_evaluator.dfy`, `schedule_description.dfy`, `schedule_examples.dfy`, `schedule_corrections.dfy`, `partner_sorters.dfy`, `game_sorters.dfy`, `event_calculators.dfy`, `tag_utils.dfy`, `date_formatter.dfy`, `store_utils.dfy`.

Model choices for things outside the helpers:

- **Instants.** A schedule is evaluated at an `Instant(weekday, hour, minute)`, the values `getDay()`, `getHours()` and `getMinutes()` give.
- **Dates.** Dates are integer milliseconds.
- **The current time.** `now` in `sortPartners` is a parameter.
- **The tag score.** `calculateGameScoreForPartner` is a function parameter about which nothing is assumed.
- **Locale-formatted date.** The text `toLocaleDateString` would give is a parameter of `FormatDate`.

## Model

| member | source | states |
|---|---|---|
| ScheduleParser.Tokenize | src/helpers/scheduleParser.ts:48-54 | every token is non-empty and holds no comma or whitespace |
| ScheduleParser.TokenizeEmptyIff | src/helpers/scheduleParser.ts:48-54 | the text gives no tokens exactly when it is made only of commas and whitespace |
| ScheduleParser.TokenizeJoin | src/helpers/scheduleParser.ts:48-54 | tokenizing words joined by single spaces gives back the same words |
| ScheduleParser.ParseBlank | src/helpers/scheduleParser.ts:39-42 | empty or whitespace-only text parses to null |
| ScheduleParser.ParseWords | src/helpers/scheduleParser.ts:39-46 | lower-case words joined by spaces parse exactly as `parseTokens` of those words |
| ScheduleParser.IndexOfToken | src/helpers/scheduleParser.ts:69 | the index of the first occurrence, -1 exactly when the word is absent |
| ScheduleParser.DayNameTable | src/helpers/scheduleParser.ts:17-27 | each day name and abbreviation gives its index (0 = Sunday); weekday(s) give 1..5, weekend(s) give 0 and 6, "only" gives nothing |
| ScheduleParser.DayValuesNonEmpty | src/helpers/scheduleParser.ts:111-122 | a token contributes days exactly when it is a key of the day map |
| ScheduleParser.DayIndices | src/helpers/scheduleParser.ts:110-123 | every collected day is between 0 and 6 |
| ScheduleParser.DayIndicesMember | src/helpers/scheduleParser.ts:110-123 | a day is collected exactly when some token contributes it |
| ScheduleParser.DayIndicesAppend | src/helpers/scheduleParser.ts:110-123 | tokens are read independently and in order |
| ScheduleParser.DayIndicesNonEmpty | src/helpers/scheduleParser.ts:125-129 | some day is collected exactly when some token is a day word, so non-day tokens are ignored |
| ScheduleParser.ParseDayExpression | src/helpers/scheduleParser.ts:107-130 | the loop over the tokens builds the day rule of the collected days; the result is non-null exactly when some token is a day word |
| ScheduleParser.ParseTimeValue | src/helpers/scheduleParser.ts:195-216 | a success is a zero-padded "HH:MM" with hour at most 23 and minute at most 59 |
| ScheduleParser.ParseTimeValueAccepts | src/helpers/scheduleParser.ts:197-215 | for every 1-2 digit hour, optional ":MM", spaces and optional am/pm: `pm` adds 12 except to 12, `12am` is 0, and the result is the padded clock text when in range and null otherwise |
| ScheduleParser.MatchTimeTextOf | src/helpers/scheduleParser.ts:197 | the time pattern captures exactly the hour, the minutes and the period of such a text |
| ScheduleParser.ParseTimeValueMorning | src/helpers/scheduleParser.ts:195-216 | "9am" gives 09:00 |
| ScheduleParser.ParseTimeValueMidnight | src/helpers/scheduleParser.ts:207-208 | "12am" gives 00:00 |
| ScheduleParser.ParseTimeValueNoon | src/helpers/scheduleParser.ts:205-206 | "12pm" gives 12:00 |
| ScheduleParser.ParseTimeValueEvening | src/helpers/scheduleParser.ts:195-216 | "9:30pm" gives 21:30 |
| ScheduleParser.ParseTimeValueTwentyFour | src/helpers/scheduleParser.ts:195-216 | "14:30" gives 14:30 |
| ScheduleParser.ParseTimeValuePastMidnight | src/helpers/scheduleParser.ts:205-213 | "13pm" gives null |
| ScheduleParser.ParseTimeValueHourTooLarge | src/helpers/scheduleParser.ts:211-213 | "24" gives null |
| ScheduleParser.ParseTimeValueMinuteTooLarge | src/helpers/scheduleParser.ts:211-213 | "9:60" gives null |
| ScheduleParser.ParseTimeValueThreeDigits | src/helpers/scheduleParser.ts:197-199 | "123" does not match and gives null |
| ScheduleParser.ClockTextShape | src/helpers/scheduleParser.ts:215 | the padded clock text of an in-range hour and minute reads back as that hour and minute |
| ScheduleParser.ClockTextOf | src/helpers/scheduleParser.ts:215 | a clock text is the padded text of its own hour and minute |
| ScheduleParser.FirstTimeKeyword | src/helpers/scheduleParser.ts:135-136 | the first token that is a time keyword, and no keyword before it |
| ScheduleParser.TimeExpressionSkip | src/helpers/scheduleParser.ts:136 | a leading non-keyword token does not change the time expression |
| ScheduleParser.TimeExpressionAtKeyword | src/helpers/scheduleParser.ts:132-166 | with the keyword first, the time rule is read from the tokens after it |
| ScheduleParser.BetweenRange | src/helpers/scheduleParser.ts:149-159 | `between A and B` gives the value `between-A'-B'` of the two parsed times |
| ScheduleParser.KeywordTimeValue | src/helpers/scheduleParser.ts:162-165 | a keyword value splits at '-' into the keyword and the clock text |
| ScheduleParser.BetweenTimeValue | src/helpers/scheduleParser.ts:156-159 | a between value splits at '-' into "between" and the two clock texts |
| ScheduleParser.ClockPatternLength | src/helpers/scheduleParser.ts:170 | the time part of the range pattern matches exactly when the text starts with a digit |
| ScheduleParser.NoDashNoRange | src/helpers/scheduleParser.ts:170 | text without '-' has no time range |
| ScheduleParser.TokensNotIn | src/helpers/scheduleParser.ts:177-179 | the kept tokens are tokens of the input |
| ScheduleParser.DayTimeNeedsDays | src/helpers/scheduleParser.ts:93-102 | a day+time rule is found only when the day expression of all the tokens already succeeded, so the day+time case is unreachable |
| ScheduleParser.ParsedWellFormed | src/helpers/scheduleParser.ts:56-105 | every parsed rule is a day list, a time value, or not/and/or over one or two parsed rules, with no `dayTime` rule anywhere |
| ScheduleParser.ParseWellFormed | src/helpers/scheduleParser.ts:39-46 | `parse` never returns a `dayTime` rule |
| ScheduleParser.NotPrefix | src/helpers/scheduleParser.ts:60-66 | `not X` gives Not(X) when X parses, and null when it does not |
| ScheduleParser.NotNot | src/helpers/scheduleParser.ts:60-66 | `not not X` gives Not(Not(X)) |
| ScheduleParser.NotFails | src/helpers/scheduleParser.ts:60-105 | when the rest fails, the `not` case falls through to the later cases |
| ScheduleParser.ParseTokensFails | src/helpers/scheduleParser.ts:56-105 | a failed parse means every case failed |
| ScheduleParser.LoneTimeFails | src/helpers/scheduleParser.ts:93-104 | a lone time value is not a schedule |
| ScheduleParser.BetweenAndFallsThrough | src/helpers/scheduleParser.ts:68-78 | for `between A and B` the `and` split fails, because B alone does not parse, and the time case gives the between range |
| ScheduleParser.BetweenCasesFail | src/helpers/scheduleParser.ts:68-94 | `between A and B` is neither an `and`, an `or` nor a day list |
| ScheduleParser.NoDayWords | src/helpers/scheduleParser.ts:107-130 | tokens that are keywords or start with a digit give no day rule |
| ScheduleParser.ParseTokensFallsToTime | src/helpers/scheduleParser.ts:92-102 | once not/and/or and days fail, the result is the time rule, or else the day+time rule |
| ScheduleEvaluator.DayNumbersOfList | src/helpers/scheduleParser.ts:245 | the numbers read back from a day list are those days |
| ScheduleEvaluator.DayRuleHolds | src/helpers/scheduleParser.ts:241-248 | a day rule holds exactly when the instant's weekday is in its list |
| ScheduleEvaluator.DayExpressionHolds | src/helpers/scheduleParser.ts:241-248 | a parsed day rule holds exactly when some token names the weekday |
| ScheduleEvaluator.ClockTextMinutes | src/helpers/scheduleParser.ts:296-299 | a clock text gives hour * 60 + minute |
| ScheduleEvaluator.KeywordTimeRuleHolds | src/helpers/scheduleParser.ts:269-279 | before/after/until/from compare minutes since midnight with <, >, <=, >= |
| ScheduleEvaluator.BetweenThrows | src/helpers/scheduleParser.ts:254-259 | every `between` value throws, because `split('-', 2)` drops the end time |
| ScheduleEvaluator.BetweenRuleThrows | src/helpers/scheduleParser.ts:254-259 | every parsed between rule throws |
| ScheduleEvaluator.DayTimeChecksDayOnly | src/helpers/scheduleParser.ts:285-294 | a day+time rule evaluates as its day rule: the start time sits in the operator slot and hits `default: true` |
| ScheduleEvaluator.EveryHolds | src/helpers/scheduleParser.ts:233 | `every` is the conjunction of the children |
| ScheduleEvaluator.AnyHolds | src/helpers/scheduleParser.ts:235 | `some` is the disjunction of the children |
| ScheduleEvaluator.ConnectiveHolds | src/helpers/scheduleParser.ts:232-235 | And holds when both hold, Or when either holds |
| ScheduleEvaluator.EvaluateWithoutBetween | src/helpers/scheduleParser.ts:220-299 | a parsed rule without `between` never throws |
| ScheduleEvaluator.BlankIsAvailable | src/helpers/scheduleParser.ts:303-306 | blank schedule text means available |
| ScheduleEvaluator.NotEvaluates | src/helpers/scheduleParser.ts:230-231 | `not X` evaluates to the negation of X, and to true when X does not parse |
| ScheduleEvaluator.NotNotEvaluates | src/helpers/scheduleParser.ts:230-231 | double negation cancels |
| ScheduleDescription.Hour12 | src/helpers/scheduleParser.ts:392 | the 12-hour clock hour is 1..12 and agrees with the hour modulo 12 |
| ScheduleDescription.FormatClock | src/helpers/scheduleParser.ts:390-396 | a clock text prints as `h[:mm] AM/PM` |
| ScheduleDescription.DisplayExamples | src/helpers/scheduleParser.ts:390-396 | 00:00 prints "12 AM", 12:00 "12 PM", 17:00 "5 PM", 09:30 "9:30 AM" |
| ScheduleDescription.ParseDisplay | src/helpers/scheduleParser.ts:390-396 | a printed time, lower-cased, parses back to its clock text |
| ScheduleDescription.DisplayReadsBack | src/helpers/scheduleParser.ts:390-396 | printing then parsing a clock text gives it back |
| ScheduleDescription.AllOk | src/helpers/scheduleParser.ts:333 | the mapped descriptions succeed exactly when each child's does |
| ScheduleDescription.DayNameList | src/helpers/scheduleParser.ts:344-350 | each day number gives its name, in list order |
| ScheduleDescription.DescribeDayList | src/helpers/scheduleParser.ts:341-353 | a day rule prints its day names joined by ", " |
| ScheduleDescription.DescribeBetweenThrows | src/helpers/scheduleParser.ts:358-362 | describing a `between` value throws |
| ScheduleDescription.DescribeKeyword | src/helpers/scheduleParser.ts:365-375 | a keyword rule prints the keyword and the time |
| ScheduleDescription.DescribeDayTimeShowsEnd | src/helpers/scheduleParser.ts:381-388 | a day+time rule prints only its end time, then " on " and the days |
| ScheduleDescription.DescribeNot | src/helpers/scheduleParser.ts:330-331 | Not(X) prints "Not " and X |
| ScheduleDescription.DescribeConnective | src/helpers/scheduleParser.ts:332-335 | And/Or print the children joined by " and " / " or " |
| ScheduleDescription.DescribeTimeValue | src/helpers/scheduleParser.ts:355-379 | a time value's description throws exactly when it is a between |
| ScheduleDescription.DescribeConnectiveThrows | src/helpers/scheduleParser.ts:332-335 | And/Or throw exactly when a child throws |
| ScheduleDescription.DescribeThrowsIffBetween | src/helpers/scheduleParser.ts:322-379 | a parsed rule's description throws exactly when it holds a between |
| ScheduleDescription.DescribeParsed | src/helpers/scheduleParser.ts:314-319 | parsed text is described by its rule |
| ScheduleDescription.DescribeBlank | src/helpers/scheduleParser.ts:309-312 | blank text gives "Always available" |
| ScheduleDescription.DescribeText | src/helpers/scheduleParser.ts:309-320 | unparseable non-blank text gives "Invalid schedule format"; the description throws exactly when the rule holds a between |
| ScheduleExamples.SingleDayWord | src/helpers/scheduleParser.ts:93-94 | a lone day word parses to the days it names |
| ScheduleExamples.MonOrSunParses | src/helpers/scheduleParser.ts:80-90 | "mon or sun" parses to Or(Monday, Sunday) |
| ScheduleExamples.MonOrSunHolds | test/scheduleParser.test.ts:3-23 | `isPartnerAvailable("mon or sun", t)` is true exactly on Mondays and Sundays, at any hour, so false on a Friday |
| ScheduleExamples.NotFridayHolds | src/helpers/scheduleParser.ts:3 | `isPartnerAvailable("not friday", t)` is true exactly when the day is not Friday |
| ScheduleExamples.TenPm | src/helpers/scheduleParser.ts:205-206 | "10pm" gives 22:00 |
| ScheduleExamples.TwoAm | src/helpers/scheduleParser.ts:195-216 | "2am" gives 02:00 |
| ScheduleExamples.BetweenTokensParse | src/helpers/scheduleParser.ts:149-159 | the tokens of "between 10pm and 2am" parse to `between-22:00-02:00` |
| ScheduleExamples.BetweenTextParses | src/helpers/scheduleParser.ts:39-46 | "between 10pm and 2am" parses to `between-22:00-02:00` |
| ScheduleExamples.ParsedBetweenThrows | src/helpers/scheduleParser.ts:303-320 | text parsed to a between rule is neither evaluable nor describable |
| ScheduleExamples.BetweenTextUnavailable | src/helpers/scheduleParser.ts:303-306 | `isPartnerAvailable("between 10pm and 2am", t)` throws |
| ScheduleExamples.BetweenTextUndescribed | src/helpers/scheduleParser.ts:309-320 | `getScheduleDescription("between 10pm and 2am")` throws |
| ScheduleExamples.WeekdaysRangeParses | src/helpers/scheduleParser.ts:93-94 | "9am-5pm weekdays" parses to the plain day rule Monday..Friday |
| ScheduleExamples.WeekdaysRangeHolds | src/helpers/scheduleParser.ts:93-102 | `isPartnerAvailable("9am-5pm weekdays", t)` is true exactly Monday to Friday, at any hour: the hours are dropped |
| ScheduleExamples.WeekendParses | src/helpers/scheduleParser.ts:116-118 | "weekend" parses to days 0 and 6 |
| ScheduleExamples.WeekendDescription | src/helpers/scheduleParser.ts:341-353 | "weekend" is described as "Sunday, Saturday" |
| ScheduleExamples.NotFridayParses | src/helpers/scheduleParser.ts:60-66 | "not friday" parses to Not(Friday) |
| ScheduleExamples.NotFridayDescription | src/helpers/scheduleParser.ts:330-331 | "not friday" is described as "Not Friday" |
| ScheduleCorrections.BetweenPieces | src/helpers/scheduleParser.ts:257 | a between value holds "between", the start and the end at pieces 0, 1 and 2 |
| ScheduleCorrections.BetweenIntended | src/helpers/scheduleParser.ts:261-266 | read as intended, a between range holds from start to end, wrapping past midnight when the start is later |
| ScheduleCorrections.OtherTimeRulesUnchanged | src/helpers/scheduleParser.ts:250-283 | the correction changes nothing but between values |
| ScheduleCorrections.BetweenDescribedIntended | src/helpers/scheduleParser.ts:360-363 | read as intended, a between range prints "between S and E" |
| ScheduleCorrections.LateNightIntended | src/helpers/scheduleParser.ts:264 | `between-22:00-02:00` holds at or after 22:00 or at or before 02:00 |
| ScheduleCorrections.LateNightDescribedIntended | src/helpers/scheduleParser.ts:360-363 | `between-22:00-02:00` prints "between 10 PM and 2 AM" |
| ScheduleCorrections.WeekdayHoursParseIntended | src/helpers/scheduleParser.ts:168-193 | with the range tried first, "9am-5pm weekdays" gives the day+time rule 09:00-17:00 over Monday..Friday |
| ScheduleCorrections.NineToFive | src/helpers/scheduleParser.ts:261-262 | the range 09:00-17:00 holds from minute 540 to 1020 |
| ScheduleCorrections.WeekdayHoursIntended | src/helpers/scheduleParser.ts:285-294 | that rule holds on weekdays between 9 AM and 5 PM |
| ScheduleCorrections.DayTimeWellFormed | src/helpers/scheduleParser.ts:168-193 | a day+time rule has two clock texts and a day rule |
| ScheduleCorrections.ParsedWellFormedIntended | src/helpers/scheduleParser.ts:56-105 | every rule of the corrected parser is well formed, day+time rules included |
| ScheduleCorrections.IntendedEvaluates | src/helpers/scheduleParser.ts:220-299 | with both corrections, a well-formed rule evaluates without throwing unless it holds a between without an end time |
| ScheduleCorrections.IntendedAvailabilityDefined | src/helpers/scheduleParser.ts:303-306 | with both corrections, availability throws only for text with a between that has no end time |
| ScheduleCorrections.IntendedAgrees | src/helpers/scheduleParser.ts:220-239 | on rules without between, the corrected evaluator agrees with the source's |
| ScheduleCorrections.NoRangeAgrees | src/helpers/scheduleParser.ts:56-105 | on tokens without '-', the corrected parser agrees with the source's |
| ScheduleCorrections.NoRangeTextAgrees | src/helpers/scheduleParser.ts:39-46 | on text whose words have no '-', both parsers agree |
| ScheduleCorrections.LateNightParsesIntended | src/helpers/scheduleParser.ts:149-159 | the corrected parser reads "between 10pm and 2am" as the source does |
| ScheduleCorrections.LateNightTextIntended | src/helpers/scheduleParser.ts:264 | corrected, "between 10pm and 2am" holds from 10 PM through 2 AM |
| ScheduleCorrections.WeekdayHoursTextIntended | src/helpers/scheduleParser.ts:8 | corrected, "9am-5pm weekdays" holds from 9 AM to 5 PM, Monday to Friday |
| PartnerSorters.SortPartners | src/helpers/partnerSorters.ts:10 | the result is a permutation of the input |
| PartnerSorters.CompareIsKeyOrder | src/helpers/partnerSorters.ts:10-44 | the comparator orders by the key (available, busy-until while busy, negated score when tags are given, last streamed, name) |
| PartnerSorters.KeyLeTotalPreorder | src/helpers/partnerSorters.ts:10-44 | the key order is a total preorder |
| PartnerSorters.PartnerOrderIsTotalPreorder | src/helpers/partnerSorters.ts:10-44 | the comparator is a consistent total preorder |
| PartnerSorters.SortedByKey | src/helpers/partnerSorters.ts:10-44 | the output is in key order |
| PartnerSorters.SortPartnersOrder | src/helpers/partnerSorters.ts:12-41 | available partners come first; busy partners by busy-until ascending; then, only when tags are given, higher score first; then last streamed ascending |
| PartnerSorters.SortPartnersIdempotent | src/helpers/partnerSorters.ts:10-44 | re-sorting with the same `now` and tags changes nothing |
| PartnerSorters.AvailableIgnoresBusyUntil | src/helpers/partnerSorters.ts:19-22 | among available partners busy-until is not compared |
| PartnerSorters.NoTagsIgnoresScore | src/helpers/partnerSorters.ts:26-33 | absent or empty game tags skip the score |
| PartnerSorters.NeverStreamedIsZero | src/helpers/partnerSorters.ts:36-37 | never streamed compares as time 0 |
| PartnerSorters.CompareSwap | src/helpers/partnerSorters.ts:12-44 | swapping the arguments negates the comparison |
| GameSorters.SortUnmetGames | src/helpers/gameSorters.ts:3-17 | the filters, the two in-place sorts and the concatenation give `UnmetGames` |
| GameSorters.DeadlineOrder | src/helpers/gameSorters.ts:8-12 | the deadline comparator is a total preorder |
| GameSorters.AsksOrder | src/helpers/gameSorters.ts:14 | the ask-count comparator is a total preorder |
| GameSorters.AsksEquivalent | src/helpers/gameSorters.ts:14 | two games tie exactly when their ask counts are equal |
| GameSorters.UnmetGamesPermutes | src/helpers/gameSorters.ts:4 | the output is a permutation of the games not trashed |
| GameSorters.DeadlinesFirst | src/helpers/gameSorters.ts:16 | every game with a deadline precedes every game without one |
| GameSorters.UnmetGamesParts | src/helpers/gameSorters.ts:5-16 | the deadline and no-deadline parts of the output are the two sorted partitions |
| GameSorters.DeadlinesAscending | src/helpers/gameSorters.ts:8-12 | deadline games are in ascending deadline order |
| GameSorters.AsksDescending | src/helpers/gameSorters.ts:14 | no-deadline games are in descending ask count |
| GameSorters.UnmetGamesStable | src/helpers/gameSorters.test.ts:57-63 | games that tie keep their input order |
| GameSorters.UnmetGamesEmpty | src/helpers/gameSorters.test.ts:73-77 | an empty input gives an empty output |
| GameSorters.MixedExample | src/helpers/gameSorters.test.ts:44-55 | A, B, C, D, E of the mixed case come out B, D, E, C, A |
| GameSorters.ExampleAsksSort | src/helpers/gameSorters.test.ts:35-42 | ask counts 1, 2, 5 sort to 5, 2, 1 |
| GameSorters.ExampleDeadlineSort | src/helpers/gameSorters.ts:8-12 | two games with deadlines come out earlier deadline first, in either input order; equal deadlines keep their order |
| GameSorters.EarlierDeadlineFirst | src/helpers/gameSorters.test.ts:27-33 | A due in two days and B in one, given A first, come out B, A |
| GameSorters.DeadlineBeforeNone | src/helpers/gameSorters.test.ts:19-25 | A with a deadline and B without, given B first, come out A, B |
| EventCalculators.AskEvent | src/helpers/eventCalculators.ts:16-21 | an ask gives an event exactly when it is this partner's and confirmed or unanswered; the event carries the game's id and name and is Streaming exactly when confirmed |
| EventCalculators.CalculatePendingEvents | src/helpers/eventCalculators.ts:10-28 | the nested loops push exactly `PendingEvents` |
| EventCalculators.AskEventsAppend | src/helpers/eventCalculators.ts:15-23 | events follow ask order |
| EventCalculators.PendingEventsAppend | src/helpers/eventCalculators.ts:13-25 | events follow game order |
| EventCalculators.DoneGamesIgnored | src/helpers/eventCalculators.ts:14 | games that are done contribute nothing |
| EventCalculators.AskEventsMembers | src/helpers/eventCalculators.ts:15-23 | an event of a game comes from one of its asks |
| EventCalculators.PendingEventsMembers | src/helpers/eventCalculators.ts:13-25 | an event is listed exactly when some ask of an open game gives it |
| EventCalculators.AnsweredAskIgnored | src/helpers/eventCalculators.ts:19-21 | an unconfirmed ask with a non-empty response gives nothing |
| EventCalculators.AskEventsCount | src/helpers/eventCalculators.ts:15-23 | at most one event per ask |
| EventCalculators.PendingEventsCount | src/helpers/eventCalculators.ts:11-27 | at most as many events as asks in games not done |
| TagUtils.SetAdd | src/helpers/tagUtils.ts:4 | adding to the set keeps the old members and adds the new one |
| TagUtils.AddEach | src/helpers/tagUtils.ts:7 | the loop adds each tag of one list to the set |
| TagUtils.AddGameTags | src/helpers/tagUtils.ts:6-8 | the loop over the games adds every game tag |
| TagUtils.AddPartnerTags | src/helpers/tagUtils.ts:10-13 | the loop over the partners adds every loved and hated tag |
| TagUtils.GetAllUniqueTags | src/helpers/tagUtils.ts:3-16 | the method builds the set and sorts it into `UniqueTags` |
| TagUtils.AddAllAppend | src/helpers/tagUtils.ts:6-13 | adding two lists is adding one, then the other |
| TagUtils.AddAllMembers | src/helpers/tagUtils.ts:6-13 | a tag is in the set exactly when it was there or was added |
| TagUtils.AddAllNoRepeats | src/helpers/tagUtils.ts:4 | the set never holds a tag twice |
| TagUtils.GamesTagsMembers | src/helpers/tagUtils.ts:6-8 | the game tags are exactly the tags of some game, and an absent list adds nothing |
| TagUtils.PartnersTagsMembers | src/helpers/tagUtils.ts:10-13 | the partner tags are exactly the loved or hated tags of some partner |
| TagUtils.UniqueTagsMembers | src/helpers/tagUtils.ts:6-13 | a tag is in the output exactly when some game or partner list holds it |
| TagUtils.StringOrder | src/helpers/tagUtils.ts:15 | the default string order is a total preorder |
| TagUtils.UniqueTagsOrdered | src/helpers/tagUtils.ts:15 | the output has no duplicates and is strictly ascending |
| TagUtils.PermutationNoRepeats | src/helpers/tagUtils.ts:15 | sorting a list without duplicates keeps it without duplicates |
| TagUtils.EmptyStoreNoTags | src/helpers/tagUtils.ts:3-15 | an empty store gives no tags |
| DateFormatter.Pad | src/helpers/dateFormatter.ts:8 | below 10 a single '0' is prefixed; at 10 and above the digits are unchanged |
| DateFormatter.PadTwoDigits | src/helpers/dateFormatter.ts:8 | below 100 the result is two digits that read back as the number |
| DateFormatter.UnknownFormatIsIso | src/helpers/dateFormatter.ts:19-21 | an unrecognised format gives the ISO form |
| DateFormatter.SlashFormatsSwap | src/helpers/dateFormatter.ts:13-16 | DD/MM/YYYY is MM/DD/YYYY with month and day swapped |
| DateFormatter.IsoReadsBack | src/helpers/dateFormatter.ts:12 | the ISO form splits at '-' into year, padded month and padded day, which read back |
| DateFormatter.SlashReadsBack | src/helpers/dateFormatter.ts:14 | MM/DD/YYYY splits at '/' into padded month, padded day and year, which read back |
| StoreUtils.FindMatch | src/helpers/storeUtils.ts:12 | the leftmost position of the pattern from a start, or none anywhere |
| StoreUtils.AppIdIsLeftmostMatch | src/helpers/storeUtils.ts:9-16 | an empty URL gives undefined; the result is defined exactly when the pattern occurs, and is the digits after its leftmost occurrence |
| StoreUtils.AppIdIsDigits | src/helpers/storeUtils.ts:12-15 | the result is a non-empty run of digits, the whole run after the path |
| StoreUtils.FindMatchFirst | src/helpers/storeUtils.ts:12 | the first occurrence is the one found |
| StoreUtils.CapturedAfterPath | src/helpers/storeUtils.ts:12-14 | the capture is the digit run right after the path |
| StoreUtils.StoreUrlGivesId | src/helpers/storeUtils.ts:12-15 | a store page URL gives its numeric id |
| StoreUtils.DotMatchesAnyCharacter | src/helpers/storeUtils.ts:12 | as written, any non-line-terminator stands in for the dots |
| StoreUtils.StrictMatchIsMatch | src/helpers/storeUtils.ts:12 | every literal-dot match is also a match as written |
| StoreUtils.StrictNeedsDots | src/helpers/storeUtils.ts:12 | with the dots escaped, a URL without '.' gives no id |
| StoreUtils.StrictAppIdFollowsPath | src/helpers/storeUtils.ts:12 | with the dots escaped, the id follows the literal store path |
| StoreUtils.GetSteamCoverUrl | src/helpers/storeUtils.ts:24-29 | defined exactly when the id is present and non-empty |
| StoreUtils.CoverUrlReadsBack | src/helpers/storeUtils.ts:28 | the id is read back from the cover URL: fixed prefix, id, "/header.jpg" |
| StoreUtils.CoverUrlInjective | src/helpers/storeUtils.ts:28 | different ids give different cover URLs |
| StoreUtils.StoreUrlToCover | src/helpers/storeUtils.ts:8-29 | a store page URL leads to the cover URL of its id |
| Sorting.SortInPlace | src/helpers/gameSorters.ts:8-14 | sorting an array in place leaves the insertion sort of its old contents |
| Sorting.SortPermutes | src/helpers/gameSorters.ts:8-14 | sorting permutes |
| Sorting.SortMembers | src/helpers/tagUtils.ts:15 | sorting keeps the same members |
| Sorting.SortSorted | src/helpers/gameSorters.ts:8-14 | under a total preorder the output is sorted |
| Sorting.SortIdempotent | src/helpers/partnerSorters.ts:10 | sorting a sorted output changes nothing |
| Sorting.SortStable | src/helpers/gameSorters.ts:14 | elements that tie keep their order |
| Sorting.StableSortIsInsertionSort | src/helpers/partnerSorters.ts:10 | every sorted, stable arrangement is this sort's output, so the choice of stable algorithm does not matter |
| Sorting.EquivalentTo | src/helpers/gameSorters.ts:14 | the elements tying with a given one, in order |
| JsBuiltins.TrimEmptyIffBlank | src/helpers/scheduleParser.ts:40 | `trim()` is empty exactly when the text is blank |
| JsBuiltins.ParseIntNatToString | src/helpers/scheduleParser.ts:245 | `parseInt` reads back a number's decimal text |
| JsBuiltins.ParseIntIntToString | src/helpers/scheduleParser.ts:297 | `parseInt` reads back a signed number's text |
| JsBuiltins.Pad2Value | src/helpers/scheduleParser.ts:215 | `padStart(2, '0')` of a number below 100 is two digits that read back |
| JsBuiltins.SplitJoin | src/helpers/scheduleParser.ts:126 | joining pieces without the separator, then splitting, gives the pieces back |
| JsBuiltins.JoinSplit | src/helpers/scheduleParser.ts:254 | splitting, then joining, gives the text back |
| JsBuiltins.FilterMembers | src/helpers/gameSorters.ts:4-6 | `filter` keeps exactly the members that pass |
| JsBuiltins.FilterPartition | src/helpers/gameSorters.ts:5-6 | complementary filters partition the input |
| JsBuiltins.LocaleCompareSwap | src/helpers/partnerSorters.ts:44 | swapping the names negates the comparison |
| JsBuiltins.StringLeTotal | src/helpers/tagUtils.ts:15 | the string order is total |
| JsBuiltins.StringLeTransitive | src/helpers/tagUtils.ts:15 | the string order is transitive |
| JsBuiltins.StringLeAntisymmetric | src/helpers/tagUtils.ts:15 | the string order is antisymmetric |

## Left out

- **Date and time handling.** `new Date()`, `getDay`/`getHours`/`getMinutes`, `getTime`, time zones and invalid dates are replaced by an `Instant` and by integer milliseconds. `now` is a parameter, and `NaN` times do not arise.
- **`toLocaleDateString`.** The "Month Day, Year" branch of `formatDate` returns a locale text passed in as a parameter, because it is locale library behaviour.
- **`localeCompare` and the default sort order.** Both are modelled as lexicographic order on characters. Locale collation and the difference between UTF-16 code units and code points are not modelled.
- **`toLowerCase`.** Only ASCII letters are lowered.
- **The sort algorithm.** The engine's sort is replaced by a stable insertion sort. `Sorting.StableSortIsInsertionSort` shows that any stable sort by the same total preorder gives the same output. The two game comparators and the partner comparator are proved to be total preorders.
- **`calculateGameScoreForPartner`.** It is a function parameter about which nothing is assumed, because its definition is not part of this model.
- **The JavaScript `in` check on the day map.** The day map is an explicit finite map. Prototype keys such as "constructor" are therefore not day words here, whereas in the source they would be.
- **Absent `value` and `rules` fields of a rule.** They are the empty string and the empty list. The two differ only for hand-built `not`/`and`/`or` rules without children, which the parser never builds.
- **Game fields.** `trashed` is not declared in `src/types.ts`; it is a boolean here.
- **Fields the helpers never read.** `desiredPartners` is kept on `Game` as `src/types.ts` declares it, but no modelled helper reads it. The Steam id, the manual metadata and the settings are left out.
- **Everything outside the helpers:** storage (IndexedDB), JSON serializers, the autosave hook, React components and build configuration. They are I/O, timing or UI.
- **The `Set` in `getAllUniqueTags`.** It is a sequence without repeats in insertion order, with the loops as methods over it. The mutation of a shared object is not modelled.
- **The partner sort's input.** `sortPartners` copies its input before sorting, so it is a function on sequences. The input array is unchanged by construction.
- **`"between 9pm"`** (a between without an end time) still throws under the corrected reading. The source gives no intended meaning for it, so `ScheduleCorrections.IntendedEvaluates` and `ScheduleCorrections.IntendedAvailabilityDefined` exclude it.

## Findings

| source | as written | input that shows it | evidently intended | confidence | as-written member | corrected member |
|---|---|---|---|---|---|---|
| src/helpers/scheduleParser.ts:254-259 | `split('-', 2)` keeps only "between" and the start time, so the end time is `undefined` and `timeStringToMinutes` throws | `isPartnerAvailable("between 10pm and 2am", t)` | available from 10 PM through 2 AM, across midnight (comment at line 264) | high; not executed | ScheduleExamples.BetweenTextUnavailable | ScheduleCorrections.LateNightTextIntended |
| src/helpers/scheduleParser.ts:358-362 | the same split in the printer leaves the end time `undefined`, so `formatTimeForDisplay` throws | `getScheduleDescription("between 10pm and 2am")` | "between 10 PM and 2 AM" | high; not executed | ScheduleExamples.BetweenTextUndescribed | ScheduleCorrections.LateNightDescribedIntended |
| src/helpers/scheduleParser.ts:93-102 | the day case runs before the day+time case and always succeeds first, so the hours are dropped | `isPartnerAvailable("9am-5pm weekdays", t)` on a weekday at 20:00 is true | 9 AM to 5 PM on weekdays (comment at line 8) | high; not executed | ScheduleExamples.WeekdaysRangeHolds | ScheduleCorrections.WeekdayHoursTextIntended |
| src/helpers/storeUtils.ts:12 | the dots in the pattern are unescaped and match any character | `getSteamAppIdFromUrl("storeXsteampoweredXcom/app/7")` gives "7" | only the literal store host matches | medium; not executed | StoreUtils.DotMatchesAnyCharacter | StoreUtils.StrictNeedsDots |
