/** `NLPParser`: turns one sentence of Chinese into a schedule entry (a title,
    a start and an end date-time) or reports why it cannot. The parser has no
    state; each of its methods is a function here. `datetime.today()` is the
    parameter `today`; the exceptions the Python code lets escape and its
    `None` result are the `Err` cases of `Result`. */
module NlpParser {
  import opened Results
  import opened Text
  import Normalizer
  import opened Numerals
  import opened Dates
  import opened TimePatterns

  /** The dictionary `parse` returns. */
  datatype Schedule = Schedule(title: string, start: DateTime, end: DateTime)

  // ---------------------------------------------------------------------
  // extract_date
  // ---------------------------------------------------------------------

  /** The first date keyword that occurs decides the date; 今天 and no
      keyword at all both mean today. */
  function ExtractDate(text: string, today: Date): (r: Result<Date>)
    requires ValidDate(today)
    ensures r.Ok? ==> ValidDate(r.value)
    ensures r.Err? ==> r.error == DateOverflow
  {
    if Contains(text, "今天") then Ok(today)
    else if Contains(text, "明天") then ShiftDate(today, 1)
    else if Contains(text, "后天") then ShiftDate(today, 2)
    else Ok(today)
  }

  /** How many days after today the text points, read by occurrence of the
      keywords. */
  ghost function DayOffset(text: string): nat
  {
    if HasSubstring(text, "今天") then 0
    else if HasSubstring(text, "明天") then 1
    else if HasSubstring(text, "后天") then 2
    else 0
  }

  /** The date found is `today` moved by the keyword's offset, counted in
      days of the proleptic Gregorian calendar; the move fails exactly when it
      passes the last representable day. */
  lemma ExtractDateIsOffset(text: string, today: Date)
    requires ValidDate(today)
    ensures ExtractDate(text, today).Ok? <==> Ordinal(today) + DayOffset(text) <= MaxOrdinal
    ensures ExtractDate(text, today).Ok? ==> Ordinal(ExtractDate(text, today).value) == Ordinal(today) + DayOffset(text)
  {
    ContainsMeansSubstring(text, "今天");
    ContainsMeansSubstring(text, "明天");
    ContainsMeansSubstring(text, "后天");
    ShiftDateInRange(today, 1);
    ShiftDateInRange(today, 2);
    LastDay(today);
  }

  // ---------------------------------------------------------------------
  // extract_title
  // ---------------------------------------------------------------------

  /** A fixed title chosen by the first keyword group that occurs. */
  function ExtractTitle(text: string): (r: string)
    ensures r in ["会议", "提醒", "安排事项", "日程"]
  {
    if Contains(text, "会议") || Contains(text, "开会") then "会议"
    else if Contains(text, "提醒") then "提醒"
    else if Contains(text, "安排") || Contains(text, "回忆") then "安排事项"
    else "日程"
  }

  /** Each title is chosen exactly when its keywords occur and no earlier
      group's keywords do. */
  lemma TitleByKeywords(text: string)
    ensures var meeting := HasSubstring(text, "会议") || HasSubstring(text, "开会");
            var reminder := HasSubstring(text, "提醒");
            var arrangement := HasSubstring(text, "安排") || HasSubstring(text, "回忆");
            && (ExtractTitle(text) == "会议" <==> meeting)
            && (ExtractTitle(text) == "提醒" <==> !meeting && reminder)
            && (ExtractTitle(text) == "安排事项" <==> !meeting && !reminder && arrangement)
            && (ExtractTitle(text) == "日程" <==> !meeting && !reminder && !arrangement)
  {
    ContainsMeansSubstring(text, "会议");
    ContainsMeansSubstring(text, "开会");
    ContainsMeansSubstring(text, "提醒");
    ContainsMeansSubstring(text, "安排");
    ContainsMeansSubstring(text, "回忆");
  }

  // ---------------------------------------------------------------------
  // extract_time
  // ---------------------------------------------------------------------

  /** The periods after which an hour before 12 is moved to the afternoon. */
  predicate IsAfternoonPeriod(period: Option<Period>)
  {
    period == Some(Noon) || period == Some(Afternoon) || period == Some(Evening)
  }

  /** The 12-hour correction for 中午, 下午 and 晚上. */
  function AdjustHour(period: Option<Period>, h: nat): (r: nat)
    ensures !IsAfternoonPeriod(period) ==> r == h
    ensures IsAfternoonPeriod(period) ==> 12 <= r && r % 12 == h % 12 && (h >= 12 ==> r == h)
    ensures r <= 23 <==> h <= 23
  {
    if IsAfternoonPeriod(period) && h < 12 then h + 12 else h
  }

  /** The group positions of a clock match lie inside the text. */
  predicate Placed(text: string, m: Clock)
  {
    && m.hourStart <= m.hourEnd <= |text|
    && (m.minute.Minutes? ==> m.minute.start <= m.minute.end < |text|)
  }

  /** The minute group's value: 30 for 半, 0 when absent, otherwise the
      numeral of the group with 分 removed. */
  function MinuteValue(text: string, g: MinuteGroup): (r: Result<nat>)
    requires g.Minutes? ==> g.start <= g.end < |text|
    ensures g.Half? ==> r == Ok(30)
    ensures g.NoMinute? ==> r == Ok(0)
    ensures r.Err? ==> r.error == NumeralKeyError
  {
    match g
    case Half => Ok(30)
    case NoMinute => Ok(0)
    case Minutes(s, e) => ChineseToNumber(ReplaceAll(text[s..e + 1], "分", ""))
  }

  /** Removing 分 from a matched minute group leaves exactly its numeral run. */
  lemma MinuteValueOfRun(text: string, g: MinuteGroup)
    requires g.Minutes? && MinuteGroupAt(text, g.start, g)
    ensures MinuteValue(text, g) == ChineseToNumber(text[g.start..g.end])
  {
    var run := text[g.start..g.end];
    assert '分' !in run by {
      forall k | 0 <= k < |run| ensures run[k] != '分' {
        assert IsNumeral(text[g.start + k]);
      }
    }
    assert text[g.start..g.end + 1] == run + ['分'];
    RemoveLastChar(run, '分');
  }

  /** The hour group's text. */
  function HourToken(text: string, m: Clock): string
    requires Placed(text, m)
  {
    text[m.hourStart..m.hourEnd]
  }

  /** The raw hour and minute of a clock match, read hour first; only a
      numeral-table lookup can fail. */
  function ReadClock(text: string, m: Clock): (r: Result<(nat, nat)>)
    requires Placed(text, m)
    ensures r.Ok? <==> ChineseToNumber(HourToken(text, m)).Ok? && MinuteValue(text, m.minute).Ok?
    ensures r.Ok? ==> r.value == (ChineseToNumber(HourToken(text, m)).value, MinuteValue(text, m.minute).value)
    ensures r.Err? ==> r.error == NumeralKeyError
  {
    var hour :- ChineseToNumber(HourToken(text, m));
    var minute :- MinuteValue(text, m.minute);
    Ok((hour, minute))
  }

  /** `time(hour, minute)` after the period correction: it fails exactly
      when the raw hour or minute is out of range, because the correction
      never moves an hour across 23; a value too wide for a C int is an
      overflow rather than a range error. */
  function ClockTime(period: Option<Period>, raw: (nat, nat)): (r: Result<TimeOfDay>)
    ensures r.Ok? <==> raw.0 <= 23 && raw.1 <= 59
    ensures r.Ok? ==> ValidTime(r.value) && r.value.minute == raw.1 && r.value.hour % 12 == raw.0 % 12
    ensures r.Ok? && IsAfternoonPeriod(period) ==> r.value.hour >= 12
    ensures r.Ok? && !IsAfternoonPeriod(period) ==> r.value.hour == raw.0
    ensures r.Err? ==> r.error == TimeError(raw.0, raw.1)
  {
    MakeTime(AdjustHour(period, raw.0), raw.1)
  }

  /** The time pair of a range match. Both ends take the start's period; all
      four numerals are read before either time is built, so a lookup
      failure wins over a range failure, and the start's time error wins
      over the end's. */
  function RangeTimes(text: string, r: ClockRange): (res: Result<(TimeOfDay, TimeOfDay)>)
    requires Placed(text, r.first) && Placed(text, r.second)
    ensures res.Ok? <==> && ReadClock(text, r.first).Ok? && ReadClock(text, r.second).Ok?
                         && ClockTime(r.first.period, ReadClock(text, r.first).value).Ok?
                         && ClockTime(r.first.period, ReadClock(text, r.second).value).Ok?
    ensures res.Ok? ==> && res.value.0 == ClockTime(r.first.period, ReadClock(text, r.first).value).value
                        && res.value.1 == ClockTime(r.first.period, ReadClock(text, r.second).value).value
    ensures res.Err? && (ReadClock(text, r.first).Err? || ReadClock(text, r.second).Err?) ==>
              res.error == NumeralKeyError
    ensures res.Err? && ReadClock(text, r.first).Ok? && ReadClock(text, r.second).Ok? ==>
              var s, e := ReadClock(text, r.first).value, ReadClock(text, r.second).value;
              res.error == if ClockTime(r.first.period, s).Err? then TimeError(s.0, s.1) else TimeError(e.0, e.1)
  {
    var s :- ReadClock(text, r.first);
    var e :- ReadClock(text, r.second);
    var start :- ClockTime(r.first.period, s);
    var end :- ClockTime(r.first.period, e);
    Ok((start, end))
  }

  /** The time pair of a single match: the same time twice. */
  function SingleTimes(text: string, m: Clock): (res: Result<(TimeOfDay, TimeOfDay)>)
    requires Placed(text, m)
    ensures res.Ok? <==> ReadClock(text, m).Ok? && ClockTime(m.period, ReadClock(text, m).value).Ok?
    ensures res.Ok? ==> res.value.0 == res.value.1 == ClockTime(m.period, ReadClock(text, m).value).value
    ensures res.Err? ==> res.error == (if ReadClock(text, m).Err? then NumeralKeyError
                                       else TimeError(ReadClock(text, m).value.0, ReadClock(text, m).value.1))
  {
    var raw :- ReadClock(text, m);
    var t :- ClockTime(m.period, raw);
    Ok((t, t))
  }

  lemma MatchIsPlaced(text: string, i: nat, m: Clock)
    requires ClockMatchAt(text, i, m)
    ensures Placed(text, m)
  {
  }

  /** `extract_time`: the range pattern first, then the single pattern;
      `Ok(None)` when neither matches. */
  function ExtractTime(text: string): (r: Result<Option<(TimeOfDay, TimeOfDay)>>)
    ensures r.Ok? && r.value.Some? ==> ValidTime(r.value.value.0) && ValidTime(r.value.value.1)
    ensures r.Err? ==> r.error == NumeralKeyError || r.error == TimeValueError || r.error == TimeArgOverflow
  {
    match SearchRange(text, 0)
    case Some(found) =>
      MatchIsPlaced(text, found.0, found.1.first);
      MatchIsPlaced(text, found.1.sep + 1, found.1.second);
      var pair :- RangeTimes(text, found.1);
      Ok(Some(pair))
    case None =>
      match SearchClock(text, 0)
      case Some(found) =>
        MatchIsPlaced(text, found.0, found.1);
        var pair :- SingleTimes(text, found.1);
        Ok(Some(pair))
      case None => Ok(None)
  }

  /** No time is found exactly when the single pattern matches nowhere. */
  lemma ExtractTimeNone(text: string)
    ensures ExtractTime(text) == Ok(None) <==> forall k: nat, m: Clock :: !ClockMatchAt(text, k, m)
  {
    SearchClockIsLeftmost(text);
    SearchRangeIsLeftmost(text);
    if SearchClock(text, 0).None? {
      forall k: nat, r: ClockRange ensures !RangeMatchAt(text, k, r) {
        if RangeMatchAt(text, k, r) {
          RangeStartsWithClock(text, k, r);
        }
      }
    }
  }

  /** When the range search fails, the single search's match decides the
      pair. */
  lemma ExtractTimeOfSingle(text: string, i: nat, m: Clock)
    requires SearchRange(text, 0).None? && SearchClock(text, 0) == Some((i, m))
    ensures Placed(text, m)
    ensures ExtractTime(text) == (match SingleTimes(text, m) case Ok(p) => Ok(Some(p)) case Err(e) => Err(e))
  {
  }

  /** A range found by the search decides the pair. */
  lemma ExtractTimeOfRange(text: string, i: nat, r: ClockRange)
    requires SearchRange(text, 0) == Some((i, r))
    ensures Placed(text, r.first) && Placed(text, r.second)
    ensures ExtractTime(text) == (match RangeTimes(text, r) case Ok(p) => Ok(Some(p)) case Err(e) => Err(e))
  {
  }

  /** The leftmost range match, whenever there is one, decides the pair. */
  lemma RangeMatchGivesPair(text: string, i: nat, r: ClockRange)
    requires IsLeftmostRange(text, i, r)
    ensures Placed(text, r.first) && Placed(text, r.second)
    ensures ExtractTime(text) == (match RangeTimes(text, r) case Ok(p) => Ok(Some(p)) case Err(e) => Err(e))
  {
    SearchRangeIsLeftmost(text);
  }

  /** Without a range match anywhere, the pair is the leftmost single match's
      time, twice. */
  lemma SingleMatchGivesPoint(text: string, i: nat, m: Clock)
    requires forall k: nat, r: ClockRange :: !RangeMatchAt(text, k, r)
    requires IsLeftmostClock(text, i, m)
    ensures Placed(text, m)
    ensures ExtractTime(text) == (match SingleTimes(text, m) case Ok(p) => Ok(Some(p)) case Err(e) => Err(e))
  {
    SearchRangeIsLeftmost(text);
    SearchClockIsLeftmost(text);
  }

  // ---------------------------------------------------------------------
  // parse
  // ---------------------------------------------------------------------

  /** The last step of `parse`: with the date and the time pair found, widen
      a single time to one hour later on the same date and keep a pair as
      found. A single time from 23:00 on wraps past midnight without moving
      the date. */
  function ScheduleOf(title: string, date: Date, pair: Option<(TimeOfDay, TimeOfDay)>): (r: Result<Schedule>)
    requires ValidDate(date)
    requires pair.Some? ==> ValidTime(pair.value.0) && ValidTime(pair.value.1)
    ensures r.Ok? <==> pair.Some? && (pair.value.0 == pair.value.1 ==> !(date == Date(MaxYear, 12, 31) && pair.value.0.hour == 23))
    ensures r.Err? ==> r.error == (if pair.None? then NoTimeFound else DateOverflow)
    ensures r.Ok? ==> && r.value.title == title
                      && r.value.start == DateTime(date, pair.value.0)
                      && r.value.end.date == date
                      && ValidTime(r.value.end.time)
    ensures r.Ok? && pair.value.0 == pair.value.1 ==>
              MinuteOfDay(r.value.end.time) == (MinuteOfDay(pair.value.0) + 60) % 1440
    ensures r.Ok? && pair.value.0 != pair.value.1 ==> r.value.end.time == pair.value.1
  {
    if pair.None? then Err(NoTimeFound)
    else
      var (s, e) := pair.value;
      var end :- if s == e then LaterByOneHour(date, s) else Ok(e);
      Ok(Schedule(title, DateTime(date, s), DateTime(date, end)))
  }

  /** `parse`: normalise, find the date, find the time pair, widen a single
      time to one hour, and pick the title. */
  function Parse(text: string, today: Date): (r: Result<Schedule>)
    requires ValidDate(today)
    ensures r.Ok? ==> r.value.start.date == r.value.end.date && ValidDate(r.value.start.date)
    ensures r.Ok? ==> ValidTime(r.value.start.time) && ValidTime(r.value.end.time)
    ensures r.Ok? ==> r.value.title in ["会议", "提醒", "安排事项", "日程"]
  {
    var t := Normalizer.Normalize(text);
    var date :- ExtractDate(t, today);
    var pair :- ExtractTime(t);
    ScheduleOf(ExtractTitle(t), date, pair)
  }

  /** `parse_event`, kept for older callers: the same as `parse`. */
  function ParseEvent(text: string, today: Date): (r: Result<Schedule>)
    requires ValidDate(today)
    ensures r == Parse(text, today)
  {
    Parse(text, today)
  }

  /** `parse` succeeds exactly when the date and a time pair are found and
      widening a single time does not pass the last representable instant. */
  lemma ParseSucceeds(text: string, today: Date)
    requires ValidDate(today)
    ensures var t := Normalizer.Normalize(text);
            var date := ExtractDate(t, today);
            var pair := ExtractTime(t);
            Parse(text, today).Ok? <==>
              && date.Ok? && pair.Ok? && pair.value.Some?
              && (pair.value.value.0 == pair.value.value.1 ==>
                    !(date.value == Date(MaxYear, 12, 31) && pair.value.value.0.hour == 23))
  {
  }

  /** What a successful `parse` returns: the start is the first time on the
      found date; a single time is widened to one hour later on the same date
      (wrapping past midnight without moving the date), and a pair is kept as
      found, even when its end is before its start. */
  lemma ParseResult(text: string, today: Date)
    requires ValidDate(today) && Parse(text, today).Ok?
    ensures var t := Normalizer.Normalize(text);
            var date := ExtractDate(t, today);
            var pair := ExtractTime(t);
            && date.Ok? && pair.Ok? && pair.value.Some?
            && var (s, e) := pair.value.value;
               var r := Parse(text, today).value;
               && r.title == ExtractTitle(t)
               && r.start == DateTime(date.value, s)
               && r.end.date == date.value
               && (s == e ==> MinuteOfDay(r.end.time) == (MinuteOfDay(s) + 60) % 1440)
               && (s != e ==> r.end.time == e)
  {
    var t := Normalizer.Normalize(text);
    var date := ExtractDate(t, today);
    var pair := ExtractTime(t);
    assert date.Ok? && pair.Ok?;
    assert Parse(text, today) == ScheduleOf(ExtractTitle(t), date.value, pair.value);
  }

  /** `parse` reports that no time was found exactly when the date step
      succeeds and the single pattern matches nowhere in the normalised text. */
  lemma ParseNoTimeFound(text: string, today: Date)
    requires ValidDate(today)
    ensures Parse(text, today) == Err(NoTimeFound) <==>
              && ExtractDate(Normalizer.Normalize(text), today).Ok?
              && forall k: nat, m: Clock :: !ClockMatchAt(Normalizer.Normalize(text), k, m)
  {
    ExtractTimeNone(Normalizer.Normalize(text));
  }

  /** The date of both ends is today moved by the keyword's offset. */
  lemma ParseDate(text: string, today: Date)
    requires ValidDate(today) && Parse(text, today).Ok?
    ensures Ordinal(Parse(text, today).value.start.date) == Ordinal(today) + DayOffset(Normalizer.Normalize(text))
    ensures Parse(text, today).value.end.date == Parse(text, today).value.start.date
  {
    ParseResult(text, today);
    ExtractDateIsOffset(Normalizer.Normalize(text), today);
  }

  /** `parse` on a text whose date and single time are known. */
  lemma ParseOfPoint(text: string, today: Date, date: Date, t: TimeOfDay)
    requires ValidDate(today)
    requires ExtractDate(Normalizer.Normalize(text), today) == Ok(date)
    requires ExtractTime(Normalizer.Normalize(text)) == Ok(Some((t, t)))
    ensures ValidDate(date) && ValidTime(t)
    ensures Parse(text, today) ==
      match LaterByOneHour(date, t)
      case Ok(e) => Ok(Schedule(ExtractTitle(Normalizer.Normalize(text)), DateTime(date, t), DateTime(date, e)))
      case Err(x) => Err(x)
  {
  }

  /** `parse` on a text whose date and two different times are known: the
      pair is kept as found. */
  lemma ParseOfPair(text: string, today: Date, date: Date, start: TimeOfDay, end: TimeOfDay)
    requires ValidDate(today) && start != end
    requires ExtractDate(Normalizer.Normalize(text), today) == Ok(date)
    requires ExtractTime(Normalizer.Normalize(text)) == Ok(Some((start, end)))
    ensures Parse(text, today) ==
      Ok(Schedule(ExtractTitle(Normalizer.Normalize(text)), DateTime(date, start), DateTime(date, end)))
  {
  }

  // ---------------------------------------------------------------------
  // Widening past midnight
  // ---------------------------------------------------------------------

  /** As written, `parse` widens a single time from 23:00 on by one hour but
      puts the result back on the start's date, so the entry ends 23 hours
      before it starts. */
  lemma LateSingleTimeEndsBeforeStart(text: string, today: Date)
    requires ValidDate(today) && Parse(text, today).Ok?
    requires var pair := ExtractTime(Normalizer.Normalize(text));
             pair.Ok? && pair.value.Some? && pair.value.value.0 == pair.value.value.1 && pair.value.value.0.hour == 23
    ensures Instant(Parse(text, today).value.end) == Instant(Parse(text, today).value.start) - 23 * 60
  {
    ParseResult(text, today);
    var r := Parse(text, today).value;
    var s := ExtractTime(Normalizer.Normalize(text)).value.value.0;
    WrapOnSameDate(r.start.date, s, r.end.time);
    assert r.start == DateTime(r.start.date, s) && r.end == DateTime(r.start.date, r.end.time);
  }

  /** The last step as evidently intended: a single time is widened to the
      start plus one hour as a whole date-time, so the date moves on past
      midnight. */
  function ScheduleCarried(title: string, date: Date, pair: Option<(TimeOfDay, TimeOfDay)>): (r: Result<Schedule>)
    requires ValidDate(date)
    requires pair.Some? ==> ValidTime(pair.value.0) && ValidTime(pair.value.1)
    ensures r.Ok? ==> && pair.Some?
                      && r.value.title == title
                      && r.value.start == DateTime(date, pair.value.0)
                      && ValidDate(r.value.end.date) && ValidTime(r.value.end.time)
    ensures r.Ok? && pair.value.0 == pair.value.1 ==> Instant(r.value.end) == Instant(r.value.start) + 60
    ensures r.Ok? && pair.value.0 != pair.value.1 ==> r.value.end == DateTime(date, pair.value.1)
  {
    if pair.None? then Err(NoTimeFound)
    else
      var (s, e) := pair.value;
      var end :- if s == e then AddOneHour(DateTime(date, s)) else Ok(DateTime(date, e));
      Ok(Schedule(title, DateTime(date, s), end))
  }

  /** The corrected last step fails exactly when the written one does, and
      keeps its title, start and end time of day. */
  lemma ScheduleCarriedAgrees(title: string, date: Date, pair: Option<(TimeOfDay, TimeOfDay)>)
    requires ValidDate(date)
    requires pair.Some? ==> ValidTime(pair.value.0) && ValidTime(pair.value.1)
    ensures ScheduleCarried(title, date, pair).Ok? <==> ScheduleOf(title, date, pair).Ok?
    ensures ScheduleCarried(title, date, pair).Err? ==> ScheduleCarried(title, date, pair) == ScheduleOf(title, date, pair)
    ensures ScheduleCarried(title, date, pair).Ok? ==>
              ScheduleCarried(title, date, pair).value.end.time == ScheduleOf(title, date, pair).value.end.time
  {
    if pair.Some? && pair.value.0 == pair.value.1 {
      LaterByOneHourKeepsTime(date, pair.value.0);
    }
  }

  /** `parse` with the corrected last step. Everything else is as in Parse. */
  function ParseCarried(text: string, today: Date): (r: Result<Schedule>)
    requires ValidDate(today)
    ensures r.Ok? ==> ValidDate(r.value.start.date) && ValidDate(r.value.end.date)
    ensures r.Ok? ==> ValidTime(r.value.start.time) && ValidTime(r.value.end.time)
  {
    var t := Normalizer.Normalize(text);
    var date :- ExtractDate(t, today);
    var pair :- ExtractTime(t);
    ScheduleCarried(ExtractTitle(t), date, pair)
  }

  /** The corrected widening always ends exactly one hour after the start, and
      it agrees with Parse on everything but the end's date. */
  lemma ParseCarriedWidensByAnHour(text: string, today: Date)
    requires ValidDate(today)
    ensures ParseCarried(text, today).Ok? <==> Parse(text, today).Ok?
    ensures ParseCarried(text, today).Ok? ==>
              var r := ParseCarried(text, today).value;
              var pair := ExtractTime(Normalizer.Normalize(text)).value.value;
              && r.title == Parse(text, today).value.title
              && r.start == Parse(text, today).value.start
              && r.end.time == Parse(text, today).value.end.time
              && (pair.0 == pair.1 ==> Instant(r.end) == Instant(r.start) + 60)
  {
    var t := Normalizer.Normalize(text);
    if ExtractDate(t, today).Ok? && ExtractTime(t).Ok? {
      ScheduleCarriedAgrees(ExtractTitle(t), ExtractDate(t, today).value, ExtractTime(t).value);
    }
  }

  /** ParseCarried on a text whose date and single time are known. */
  lemma ParseCarriedOfPoint(text: string, today: Date, date: Date, t: TimeOfDay)
    requires ValidDate(today)
    requires ExtractDate(Normalizer.Normalize(text), today) == Ok(date)
    requires ExtractTime(Normalizer.Normalize(text)) == Ok(Some((t, t)))
    ensures ValidDate(date) && ValidTime(t)
    ensures ParseCarried(text, today) ==
      match AddOneHour(DateTime(date, t))
      case Ok(e) => Ok(Schedule(ExtractTitle(Normalizer.Normalize(text)), DateTime(date, t), e))
      case Err(x) => Err(x)
  {
  }
}
