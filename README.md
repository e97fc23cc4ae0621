# NLPParser in Dafny

This project models the natural-language schedule parser `NLPParser` of a
Chinese voice-scheduling assistant (`nlp_parser.py`). Given one sentence such
as "明天下午2点开会", the parser builds a schedule entry: a title, a start
date-time and an end date-time. The parser works in five steps:

1. It normalises a few traditional characters to their simplified forms.
2. It reads the date from the keywords 今天, 明天 and 后天.
3. It reads the time with two regular expressions, trying a range
   ("下午2点到3点") before a single time ("晚上11点半").
4. It widens a single time to one hour.
5. It picks a fixed title from keyword groups.

The project proves these properties of the model:

- Normalisation is idempotent and keeps the text's length. It has a closed form, position by position.
- The date found is today moved by 0, 1 or 2 days. It overflows exactly past 9999-12-31.
- The numeral converter inverts the conventional spelling of 0–99 and of decimal numbers. Its failures are exactly the table-lookup failures.
- The scanner that replaces `re.search` finds the leftmost match, with the greedy choices Python's backtracking makes.
- A successful `parse` is characterised in terms of its steps.
- Six sentences are worked through the whole parser.

Modules, leaf first:

- `Results` holds the error kinds and `Result`/`Option`.
- `Text` holds substring containment, `str.replace` and `str.split`.
- `Normalizer` models `_normalize_text`.
- `Numerals` models `chinese_to_number`.
- `Dates` holds proleptic Gregorian dates and `timedelta` arithmetic.
- `TimePatterns` holds the two regular expressions and their scanner.
- `NlpParser` models `extract_date`, `extract_title`, `extract_time`, `parse` and `parse_event`.
- `ParserCases` works the examples through.

The Python code's `None` results and the exceptions it lets escape become the
`Err` cases of `Result`:

- `NoTimeFound` is `parse` returning `None`.
- `NumeralKeyError` is the `KeyError` of a numeral-table lookup.
- `TimeValueError` is the `ValueError` of `time(hour, minute)` for an hour or minute out of range.
- `TimeArgOverflow` is the `OverflowError` of `time(hour, minute)` when an argument does not fit the C `int` it is read into (2^31 or more here, since numerals are never negative); it is raised before the range check.
- `DateOverflow` is the `OverflowError` of date arithmetic past year 9999.

The clock read by `datetime.today()` is the parameter `today`.

## Model

| member | source | states |
|---|---|---|
| Text.ContainsMeansSubstring | nlp_parser.py:83-88 | the scanning containment test used for `in` holds exactly when the word occurs at some position of the text |
| Text.SplitJoin | nlp_parser.py:168 | joining the pieces of `str.split` with the separator gives the string back, and no piece contains the separator |
| Normalizer.NormalizeText | nlp_parser.py:61-76 | the loop over the table, replacing each key everywhere in turn, yields the table applied in order; the result has the input's length, and each position holds the input character's simplified form (憶 becomes 忆 only right after 回) |
| Normalizer.NormalizeClosedForm | nlp_parser.py:62-75 | the ordered replace-all passes equal the position-wise closed form: 兩會幫點後鐘 to 两会帮点后钟, 回憶 to 回忆, everything else unchanged |
| Normalizer.NormalizePreservesLength | nlp_parser.py:74-76 | normalising never changes the text's length |
| Normalizer.NormalizeKeepsOtherChars | nlp_parser.py:62-76 | a character that occurs in no key of the table is left where it was |
| Normalizer.NormalizeIdempotent | nlp_parser.py:61-76 | normalising already-normalised text changes nothing |
| Normalizer.NormalizeFixesSimplified | nlp_parser.py:62-76 | a text without any of 兩會幫點憶後鐘 is its own normal form |
| Numerals.Lookup | nlp_parser.py:152-155 | `table[key]` succeeds exactly for a one-character key in the table, with a value of at most 10, and otherwise raises the key error |
| Numerals.ChineseToNumber | nlp_parser.py:151-171 | the converter fails only with the key error, and only on a token that contains 十 and is not 十 itself |
| Numerals.SpelledNumbersRoundTrip | nlp_parser.py:160-171 | every number 0–99 written in numeral words (十, 十X, X十, X十Y) converts back to itself |
| Numerals.DecimalRoundTrip | nlp_parser.py:157-158 | the decimal spelling of every natural number is a digit string that converts back to the number |
| Numerals.NoTenNeverFails | nlp_parser.py:157-171 | a token without 十 never fails: a digit string gives its decimal value, a table character its table value, anything else 0 |
| Numerals.WordValueAtMost99 | nlp_parser.py:160-169 | a token that is not a digit string converts to at most 99 |
| Numerals.TenEdgeCases | nlp_parser.py:163-166 | 十十 is 20, 三四十 is 30 (only the first character counts), 两 is 2 |
| Numerals.UnknownTokensAreZero | nlp_parser.py:171 | 一百, 百 and 1二 fall through to the default 0 |
| Numerals.KeyErrorCases | nlp_parser.py:163-166 | 十百 and 1十 raise the key error on the lookup after 十 is split off |
| Numerals.DoubleTenInsideFails | nlp_parser.py:167-169 | 二十十三 splits into three pieces, and the empty second piece raises the key error |
| Dates.MakeTime | nlp_parser.py:116 | `time(hour, minute)` succeeds exactly for hour 0–23 and minute 0–59, keeping both; otherwise it raises the overflow error exactly when an argument lies outside the C `int` range, and the value error when not |
| Dates.AddDaysIsOrdinalShift | nlp_parser.py:86-88 | moving a date forward by n days is adding n to its day number (`toordinal`) |
| Dates.ShiftDateInRange | nlp_parser.py:86-88 | `date + timedelta(days=n)` succeeds exactly when the day number stays within 9999-12-31, and then adds n to it; otherwise it overflows |
| Dates.OrdinalInjective | nlp_parser.py:86-88 | two dates with the same day number are the same date |
| Dates.LaterByOneHour | nlp_parser.py:40-44 | the time of day one hour after a time is 60 minutes later modulo a day; it overflows exactly at 23:xx on 9999-12-31 |
| Dates.AddOneHour | nlp_parser.py:41-42 | adding one hour to a date-time is 60 minutes later on the absolute minute count; it overflows exactly at 23:xx on 9999-12-31 |
| Dates.LaterByOneHourKeepsTime | nlp_parser.py:41-44 | the wrapped time of day is exactly the time of the full one-hour addition, and the two fail together |
| Dates.WrapOnSameDate | nlp_parser.py:41-47 | a time from 23:00 on, moved one hour on the clock and put back on the same date, is 23 hours earlier |
| TimePatterns.PeriodAt | nlp_parser.py:119 | the period group matches at a position exactly when one of 早上 上午 中午 下午 晚上 starts there |
| TimePatterns.ScanClockAtCorrect | nlp_parser.py:119-120 | whenever the single pattern can match at a position, the scanner finds a match there that is that one or extends it through the final optional group |
| TimePatterns.ScanRangeAtCorrect | nlp_parser.py:96-97 | whenever the range pattern can match at a position, the scanner finds a match there that agrees on the start clock and separator and covers the end clock |
| TimePatterns.FirstClockExact | nlp_parser.py:96 | inside a range match the start clock's minute group is forced, so the scanner reads exactly the start clock of any match |
| TimePatterns.SearchClockIsLeftmost | nlp_parser.py:120 | the single-pattern search reports exactly the leftmost match position with its greedy match, and reports nothing exactly when the pattern matches nowhere |
| TimePatterns.SearchRangeIsLeftmost | nlp_parser.py:97 | the range search reports exactly the leftmost range match with its greedy match, and reports nothing exactly when the range pattern matches nowhere |
| TimePatterns.RangeStartsWithClock | nlp_parser.py:96 | a range match starts with a match of the single pattern |
| TimePatterns.NoSeparatorNoRange | nlp_parser.py:96 | a text without 到 or 至 has no range match |
| TimePatterns.SeparatorsUnfollowed | nlp_parser.py:96 | if every 到 or 至 is followed by a character that is neither a space nor a numeral, the range pattern matches nowhere |
| TimePatterns.NoDianNoClock | nlp_parser.py:119 | a text without 点 has no time match |
| NlpParser.ExtractDate | nlp_parser.py:81-89 | a found date is a valid date, and the only failure is the overflow |
| NlpParser.ExtractDateIsOffset | nlp_parser.py:81-89 | the date is today moved by 0, 1 or 2 days, chosen by the first of 今天, 明天, 后天 that occurs (none means today); it fails exactly when that passes 9999-12-31 |
| NlpParser.ExtractTitle | nlp_parser.py:139-146 | the title is one of the four fixed words |
| NlpParser.TitleByKeywords | nlp_parser.py:139-146 | each title is chosen exactly when one of its keywords occurs and no keyword of an earlier group does |
| NlpParser.AdjustHour | nlp_parser.py:105-114 | after 中午, 下午 or 晚上 an hour below 12 gains 12 and other hours are kept; after any other period, or none, the hour is unchanged; the correction never moves an hour across 23 |
| NlpParser.MinuteValue | nlp_parser.py:101 | 半 gives 30, an absent group gives 0, and only the numeral lookup can fail |
| NlpParser.MinuteValueOfRun | nlp_parser.py:124 | removing 分 from a matched minute group converts exactly its numeral run |
| NlpParser.ReadClock | nlp_parser.py:123-124 | a clock reads its hour and minute numerals, both of which must convert; the only failure is the numeral lookup |
| NlpParser.ClockTime | nlp_parser.py:126-132 | building the time succeeds exactly when the raw hour is at most 23 and the minute at most 59; it keeps the minute and the hour modulo 12, and an afternoon period gives an hour of 12 or more; a failure is the overflow or value error that the raw hour and minute decide |
| NlpParser.RangeTimes | nlp_parser.py:98-116 | both ends of a range take the start's period; the pair succeeds exactly when all four numerals convert and both times are in range; a lookup failure wins over a time failure, and the start's time error (overflow or value error) wins over the end's |
| NlpParser.SingleTimes | nlp_parser.py:121-132 | a single match gives the same corrected time twice, or the first error in reading order: the key error of a numeral, else the overflow or value error of the raw hour and minute |
| NlpParser.ExtractTime | nlp_parser.py:94-134 | a found pair consists of valid times, and the only errors are the numeral key error, the time value error and the time overflow error |
| NlpParser.ExtractTimeNone | nlp_parser.py:118-134 | no time is found exactly when the single pattern matches nowhere in the text |
| NlpParser.ExtractTimeOfRange | nlp_parser.py:97-116 | the range the search finds decides the time pair |
| NlpParser.ExtractTimeOfSingle | nlp_parser.py:118-132 | with no range found, the single match decides the time pair |
| NlpParser.RangeMatchGivesPair | nlp_parser.py:96-116 | the leftmost range match, whenever there is one, decides the time pair |
| NlpParser.SingleMatchGivesPoint | nlp_parser.py:118-132 | with no range match anywhere, the leftmost single match decides the pair |
| NlpParser.ScheduleOf | nlp_parser.py:38-56 | with no pair, no time was found; otherwise the entry starts at the first time on the found date and ends on the same date, a single time 60 minutes later modulo a day and a pair at its end as found; it fails exactly when widening at 23:xx on 9999-12-31 overflows |
| NlpParser.Parse | nlp_parser.py:19-56 | a successful parse has both ends on one valid date, valid times, and one of the four titles |
| NlpParser.ParseEvent | nlp_parser.py:12-14 | the compatibility entry point returns the same result as `parse` for every input |
| NlpParser.ParseSucceeds | nlp_parser.py:19-47 | `parse` succeeds exactly when the date and a time pair are found and widening a single time does not overflow |
| NlpParser.ParseResult | nlp_parser.py:38-56 | a successful parse has the title of the normalised text, starts at the first found time on the found date, keeps the end on that date, widens a single time to 60 minutes later modulo a day, and keeps a distinct end as found |
| NlpParser.ParseNoTimeFound | nlp_parser.py:33-36 | `parse` reports no time found exactly when the date step succeeds and the single pattern matches nowhere in the normalised text |
| NlpParser.ParseDate | nlp_parser.py:27 | both ends of a parsed entry lie on today moved by the keyword's offset |
| NlpParser.ParseOfPoint | nlp_parser.py:38-56 | with a known date and a single time, `parse` gives that time widened by an hour on the same date, or the overflow |
| NlpParser.ParseOfPair | nlp_parser.py:46-56 | with a known date and two distinct times, `parse` keeps both times on that date |
| NlpParser.LateSingleTimeEndsBeforeStart | nlp_parser.py:40-47 | as written, a single time from 23:00 on gives an entry that ends 23 hours before it starts |
| NlpParser.ScheduleCarried | nlp_parser.py:40-42 | the corrected last step ends a single time exactly 60 minutes after its start, moving the date on past midnight |
| NlpParser.ScheduleCarriedAgrees | nlp_parser.py:40-47 | the corrected last step fails exactly when the written one does, and ends at the same time of day |
| NlpParser.ParseCarried | nlp_parser.py:19-56 | the corrected parse gives valid dates and times |
| NlpParser.ParseCarriedWidensByAnHour | nlp_parser.py:40-47 | the corrected parse succeeds exactly when `parse` does, has the same title, start and end time of day, and ends a single time exactly one hour after its start |
| NlpParser.ParseCarriedOfPoint | nlp_parser.py:40-47 | with a known date and a single time, the corrected parse ends one full hour later, or overflows |
| ParserCases.ExampleTomorrowAfternoonMeeting | nlp_parser.py:19-56 | "明天下午2点开会" on 2025-11-28 gives a 会议 from 2025-11-29 14:00 to 15:00 |
| ParserCases.ExampleAfternoonRange | nlp_parser.py:94-116 | "明天下午2点到3点,团队会议" on 2025-11-28 gives a 会议 from 2025-11-29 14:00 to 15:00; the end takes the start's 下午 |
| ParserCases.ExampleNoTime | nlp_parser.py:33-36 | "明天开会" fails for want of a time on every day but the last representable one |
| ParserCases.ExampleMorningToAfternoon | nlp_parser.py:96-132 | "上午10点到下午2点" is no range match, because a period word may not follow 到; it gives a 日程 from 10:00 to 11:00 today |
| ParserCases.ExampleLateEvening | nlp_parser.py:40-47 | "晚上11点半" on 2025-11-28 gives an entry from 23:30 to 00:30 of the same day |
| ParserCases.ExampleLateEveningCarried | nlp_parser.py:40-47 | with the corrected widening, "晚上11点半" on 2025-11-28 ends at 2025-11-29 00:30 |
| ParserCases.ExampleHugeHour | nlp_parser.py:119-132 | "3000000000点" on any day reads the hour 3000000000 and fails with the overflow error of `time`, not the value error |

## Left out

- Logging (`logger.info`, `logger.warning`) has no effect on results and is not modelled.
- `datetime.today()` is not modelled as a clock. The date `today` is a parameter, and only its calendar day matters here.
- The other files of the repository are not part of this model: the web server, speech, calendar automation and conflict checking.
- Numerals.ChineseToNumber: `str.isdigit` is modelled on ASCII digits only. The patterns' numeral class admits no other digit characters, so every token that can reach the converter is covered. Called directly on other Unicode characters that pass `isdigit`, Python would behave differently: it returns `int(cn)` for other decimal digits such as `٣`, and raises `ValueError` for digits that are not decimal, such as `²` or `①`. The model gives 0 in both cases, or the key error for a token holding 十.
- Numerals.ChineseToNumber: reads a digit string of any length, while `int()` in Python 3.11 and later refuses more than 4300 digits with a `ValueError`; that limit depends on the interpreter version and on `sys.set_int_max_str_digits`, so the model keeps the unbounded conversion (Numerals.DecimalRoundTrip likewise holds for every length).
- `nlp_parser.py` implements no grammar beyond its three date keywords and the two time patterns. Month/day literals, weekdays, relative weeks and months, HH:MM times and the separators `-` and `~` are not implemented there, so they are not modelled.
- The title is one of four fixed words chosen by keywords, as the code does. It is not the text left over after removing the date and time words, so "团队会议" yields 会议.
- The code has no rule that maps 12 to 0 after 早上 or 上午, so neither does the model.
- The code does not promote a range whose end is before its start to the next day, so neither does the model.
- The branch `if date is None` in `parse` can never be taken, because `extract_date` always returns a date or raises. It has no counterpart in the model.
- `datetime` values carry seconds and microseconds that the code never sets. The model counts whole minutes.

## Findings

| source | as written | input that shows it | evidently intended | confidence | as-written member | corrected member |
|---|---|---|---|---|---|---|
| nlp_parser.py:40-47 | a single time is widened by adding one hour to the full date-time, but only the time of day is kept and it is recombined with the original date, so from 23:00 on the end falls 23 hours before the start | "晚上11点半" on 2025-11-28 gives 23:30 to 00:30 of 2025-11-28 | the end is the start plus one hour, 2025-11-29 00:30, with the date carried past midnight | high, not executed | NlpParser.LateSingleTimeEndsBeforeStart | NlpParser.ParseCarriedWidensByAnHour |
