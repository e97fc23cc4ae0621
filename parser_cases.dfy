/** Sentences worked through the whole parser, each with the entry `parse`
    returns for it. */
module ParserCases {
  import opened Results
  import opened Text
  import Normalizer
  import opened Numerals
  import opened Dates
  import opened TimePatterns
  import opened NlpParser

  // ---------------------------------------------------------------------
  // Facts about a text given position by position
  // ---------------------------------------------------------------------

  lemma NumeralIsNotSpace(c: char)
    requires IsNumeral(c)
    ensures !IsSpace(c)
  {
  }

  lemma {:induction false} SkipNumeralRun(text: string, j: nat, e: nat)
    requires j <= e <= |text|
    requires forall k :: j <= k < e ==> IsNumeral(text[k])
    requires e == |text| || !IsNumeral(text[e])
    ensures SkipNumerals(text, j) == e
    decreases e - j
  {
    if j < e {
      SkipNumeralRun(text, j + 1, e);
    }
  }

  /** A numeral run `[j, e)` directly followed by 点 is a clock body with no
      spaces in it. */
  lemma PlainClockBody(text: string, j: nat, e: nat, period: Option<Period>)
    requires j < e < |text|
    requires forall k :: j <= k < e ==> IsNumeral(text[k])
    requires text[e] == '点'
    ensures ScanClockBody(text, j, period) == Some(Clock(period, j, e, e, ScanMinuteGroup(text, e + 1)))
  {
    NumeralIsNotSpace(text[j]);
    assert SkipSpaces(text, j) == j;
    SkipNumeralRun(text, j, e);
    assert SkipSpaces(text, e) == e;
  }

  /** Neither 半 nor a numeral at `at`: the minute group is empty. */
  lemma NoMinuteAt(text: string, at: nat)
    requires at <= |text|
    requires at == |text| || (text[at] != '半' && !IsNumeral(text[at]))
    ensures ScanMinuteGroup(text, at) == NoMinute
  {
    if at < |text| {
      assert SkipNumerals(text, at) == at;
    }
  }

  /** A period word at `i`, a numeral run up to `e` and 点 at `e`: the
      single pattern matches at `i` with that period. */
  lemma PeriodClockAt(text: string, i: nat, p: Period, e: nat)
    requires i + 2 < e < |text|
    requires PeriodAt(text, i) == Some(p)
    requires forall k :: i + 2 <= k < e ==> IsNumeral(text[k])
    requires text[e] == '点'
    ensures ScanClockAt(text, i) == Some(Clock(Some(p), i + 2, e, e, ScanMinuteGroup(text, e + 1)))
  {
    PlainClockBody(text, i + 2, e, Some(p));
  }

  /** A separator right after the start clock, then a clock body: the tail
      of the range pattern. */
  lemma SeparatorThenClock(text: string, first: Clock, second: Clock)
    requires ClockEnd(first) < |text| && IsRangeSeparator(text[ClockEnd(first)])
    requires ScanClockBody(text, ClockEnd(first) + 1, None) == Some(second)
    ensures ScanRangeTail(text, first) == Some((ClockEnd(first), second))
  {
    assert SkipSpaces(text, ClockEnd(first)) == ClockEnd(first);
  }

  /** A start clock body followed by a range tail: the range body. */
  lemma RangeFromParts(text: string, j: nat, period: Option<Period>, first: Clock, sep: nat, second: Clock)
    requires j <= |text|
    requires ScanClockBody(text, j, period) == Some(first)
    requires ScanRangeTail(text, first) == Some((sep, second))
    ensures ScanRangeBody(text, j, period) == Some(ClockRange(first, sep, second))
  {
  }

  /** No character of any title keyword: the default title. */
  lemma DefaultTitle(s: string)
    requires forall i :: 0 <= i < |s| ==> s[i] !in "会开提安回"
    ensures ExtractTitle(s) == "日程"
  {
    CharMissing(s, "会议", 0);
    CharMissing(s, "开会", 0);
    CharMissing(s, "提醒", 0);
    CharMissing(s, "安排", 0);
    CharMissing(s, "回忆", 0);
  }

  /** A meeting keyword at `i`. */
  lemma MeetingAt(s: string, i: nat)
    requires i + 1 < |s|
    requires (s[i] == '会' && s[i + 1] == '议') || (s[i] == '开' && s[i + 1] == '会')
    ensures ExtractTitle(s) == "会议"
  {
    if s[i] == '会' {
      assert s[i..i + 2] == "会议";
      FoundAt(s, "会议", i);
    } else {
      assert s[i..i + 2] == "开会";
      FoundAt(s, "开会", i);
    }
  }

  /** No 天 at all: the date is today. */
  lemma NoDayWord(s: string, today: Date)
    requires ValidDate(today)
    requires forall i :: 0 <= i < |s| ==> s[i] != '天'
    ensures ExtractDate(s, today) == Ok(today)
  {
    CharMissing(s, "今天", 1);
    CharMissing(s, "明天", 1);
    CharMissing(s, "后天", 1);
  }

  /** 明天 at `i` and no 今 anywhere: the date is tomorrow. */
  lemma TomorrowAt(s: string, i: nat, today: Date)
    requires ValidDate(today)
    requires i + 1 < |s| && s[i] == '明' && s[i + 1] == '天'
    requires forall k :: 0 <= k < |s| ==> s[k] != '今'
    ensures ExtractDate(s, today) == ShiftDate(today, 1)
  {
    CharMissing(s, "今天", 0);
    assert s[i..i + 2] == "明天";
    FoundAt(s, "明天", i);
  }

  /** `parse` on a text the normaliser leaves alone, with one time found. */
  lemma SettledPoint(text: string, today: Date, date: Date, t: TimeOfDay, e: TimeOfDay, title: string)
    requires ValidDate(today) && Normalizer.Normalize(text) == text
    requires ExtractDate(text, today) == Ok(date)
    requires ExtractTime(text) == Ok(Some((t, t)))
    requires LaterByOneHour(date, t) == Ok(e)
    requires ExtractTitle(text) == title
    ensures Parse(text, today) == Ok(Schedule(title, DateTime(date, t), DateTime(date, e)))
  {
    ParseOfPoint(text, today, date, t);
  }

  /** `parse` on a text the normaliser leaves alone, with two times found. */
  lemma SettledPair(text: string, today: Date, date: Date, t: TimeOfDay, e: TimeOfDay, title: string)
    requires ValidDate(today) && Normalizer.Normalize(text) == text && t != e
    requires ExtractDate(text, today) == Ok(date)
    requires ExtractTime(text) == Ok(Some((t, e)))
    requires ExtractTitle(text) == title
    ensures Parse(text, today) == Ok(Schedule(title, DateTime(date, t), DateTime(date, e)))
  {
    ParseOfPair(text, today, date, t, e);
  }

  /** `parse` on a text the normaliser leaves alone, whose time step fails:
      that failure is the result. */
  lemma SettledTimeError(text: string, today: Date, date: Date, e: ParseError)
    requires ValidDate(today) && Normalizer.Normalize(text) == text
    requires ExtractDate(text, today) == Ok(date)
    requires ExtractTime(text) == Err(e)
    ensures Parse(text, today) == Err(e)
  {
  }

  lemma DayAfterExampleDate()
    ensures ShiftDate(Date(2025, 11, 28), 1) == Ok(Date(2025, 11, 29))
  {
    assert AddDays(Date(2025, 11, 28), 1) == Date(2025, 11, 29);
  }

  // ---------------------------------------------------------------------
  // Worked example: the sentence the server's self-test endpoint parses
  // ---------------------------------------------------------------------

  const TomorrowMeeting := "明天下午2点开会"

  lemma TomorrowMeetingClock()
    ensures SearchClock(TomorrowMeeting, 0) == Some((2, Clock(Some(Afternoon), 4, 5, 5, NoMinute)))
  {
    var s := TomorrowMeeting;
    var m := Clock(Some(Afternoon), 4, 5, 5, NoMinute);
    assert PeriodAt(s, 0) == None && PeriodAt(s, 1) == None;
    NoClockStartsAt(s, 0);
    NoClockStartsAt(s, 1);
    assert PeriodAt(s, 2) == Some(Afternoon);
    PeriodClockAt(s, 2, Afternoon, 5);
    NoMinuteAt(s, 6);
  }

  lemma TomorrowMeetingReading()
    ensures Placed(TomorrowMeeting, Clock(Some(Afternoon), 4, 5, 5, NoMinute))
    ensures SingleTimes(TomorrowMeeting, Clock(Some(Afternoon), 4, 5, 5, NoMinute)) ==
            Ok((TimeOfDay(14, 0), TimeOfDay(14, 0)))
  {
    var s := TomorrowMeeting;
    var m := Clock(Some(Afternoon), 4, 5, 5, NoMinute);
    assert HourToken(s, m) == "2";
    assert ChineseToNumber("2") == Ok(2) by {
      DecimalRoundTrip(2);
      assert DecimalString(2) == "2";
    }
    assert ReadClock(s, m) == Ok((2, 0));
  }

  lemma TomorrowMeetingTime(text: string)
    requires text == TomorrowMeeting
    ensures ExtractTime(text) == Ok(Some((TimeOfDay(14, 0), TimeOfDay(14, 0))))
  {
    NoSeparatorNoRange(TomorrowMeeting);
    TomorrowMeetingClock();
    TomorrowMeetingReading();
    ExtractTimeOfSingle(TomorrowMeeting, 2, Clock(Some(Afternoon), 4, 5, 5, NoMinute));
  }

  lemma TomorrowMeetingNormal(text: string)
    requires text == TomorrowMeeting
    ensures Normalizer.Normalize(text) == text
  {
    Normalizer.NormalizeFixesSimplified(TomorrowMeeting);
  }

  lemma TomorrowMeetingDateAndTitle(text: string)
    requires text == TomorrowMeeting
    ensures ExtractDate(text, Date(2025, 11, 28)) == Ok(Date(2025, 11, 29))
    ensures ExtractTitle(text) == "会议"
  {
    TomorrowAt(TomorrowMeeting, 0, Date(2025, 11, 28));
    DayAfterExampleDate();
    MeetingAt(TomorrowMeeting, 6);
  }

  lemma TomorrowMeetingEnd()
    ensures LaterByOneHour(Date(2025, 11, 29), TimeOfDay(14, 0)) == Ok(TimeOfDay(15, 0))
  {
  }

  /** "明天下午2点开会" on 2025-11-28: tomorrow, 14:00 widened to 15:00, a meeting. */
  lemma ExampleTomorrowAfternoonMeeting(text: string, today: Date)
    requires text == TomorrowMeeting && today == Date(2025, 11, 28)
    ensures Parse(text, today) ==
      Ok(Schedule("会议", DateTime(Date(2025, 11, 29), TimeOfDay(14, 0)), DateTime(Date(2025, 11, 29), TimeOfDay(15, 0))))
  {
    TomorrowMeetingNormal(text);
    TomorrowMeetingDateAndTitle(text);
    TomorrowMeetingTime(text);
    TomorrowMeetingEnd();
    SettledPoint(text, today, Date(2025, 11, 29), TimeOfDay(14, 0), TimeOfDay(15, 0), "会议");
  }

  // ---------------------------------------------------------------------
  // Worked example: a range with both ends in the afternoon
  // ---------------------------------------------------------------------

  const AfternoonRange := "明天下午2点到3点,团队会议"

  lemma AfternoonRangeFirst()
    ensures ScanClockBody(AfternoonRange, 4, Some(Afternoon)) == Some(Clock(Some(Afternoon), 4, 5, 5, NoMinute))
  {
    PlainClockBody(AfternoonRange, 4, 5, Some(Afternoon));
    NoMinuteAt(AfternoonRange, 6);
  }

  lemma AfternoonRangeSecond()
    ensures ScanClockBody(AfternoonRange, 7, None) == Some(Clock(None, 7, 8, 8, NoMinute))
  {
    PlainClockBody(AfternoonRange, 7, 8, None);
    NoMinuteAt(AfternoonRange, 9);
  }

  lemma AfternoonRangeTail()
    ensures ScanRangeTail(AfternoonRange, Clock(Some(Afternoon), 4, 5, 5, NoMinute)) ==
            Some((6, Clock(None, 7, 8, 8, NoMinute)))
  {
    AfternoonRangeSecond();
    SeparatorThenClock(AfternoonRange, Clock(Some(Afternoon), 4, 5, 5, NoMinute), Clock(None, 7, 8, 8, NoMinute));
  }

  lemma AfternoonRangeAt()
    ensures ScanRangeAt(AfternoonRange, 2) ==
      Some(ClockRange(Clock(Some(Afternoon), 4, 5, 5, NoMinute), 6, Clock(None, 7, 8, 8, NoMinute)))
  {
    assert PeriodAt(AfternoonRange, 2) == Some(Afternoon);
    AfternoonRangeFirst();
    AfternoonRangeTail();
    RangeFromParts(AfternoonRange, 4, Some(Afternoon), Clock(Some(Afternoon), 4, 5, 5, NoMinute), 6,
      Clock(None, 7, 8, 8, NoMinute));
  }

  lemma AfternoonRangeMatch()
    ensures SearchRange(AfternoonRange, 0) ==
      Some((2, ClockRange(Clock(Some(Afternoon), 4, 5, 5, NoMinute), 6, Clock(None, 7, 8, 8, NoMinute))))
  {
    var s := AfternoonRange;
    assert PeriodAt(s, 0) == None && PeriodAt(s, 1) == None;
    NoRangeStartsAt(s, 0);
    NoRangeStartsAt(s, 1);
    AfternoonRangeAt();
  }

  lemma AfternoonRangeReading()
    ensures var r := ClockRange(Clock(Some(Afternoon), 4, 5, 5, NoMinute), 6, Clock(None, 7, 8, 8, NoMinute));
            && Placed(AfternoonRange, r.first) && Placed(AfternoonRange, r.second)
            && RangeTimes(AfternoonRange, r) == Ok((TimeOfDay(14, 0), TimeOfDay(15, 0)))
  {
    var s := AfternoonRange;
    var first := Clock(Some(Afternoon), 4, 5, 5, NoMinute);
    var second := Clock(None, 7, 8, 8, NoMinute);
    assert HourToken(s, first) == "2" && HourToken(s, second) == "3";
    assert ChineseToNumber("2") == Ok(2) by {
      DecimalRoundTrip(2);
      assert DecimalString(2) == "2";
    }
    assert ChineseToNumber("3") == Ok(3) by {
      DecimalRoundTrip(3);
      assert DecimalString(3) == "3";
    }
    assert ReadClock(s, first) == Ok((2, 0));
    assert ReadClock(s, second) == Ok((3, 0));
  }

  lemma AfternoonRangeTime(text: string)
    requires text == AfternoonRange
    ensures ExtractTime(text) == Ok(Some((TimeOfDay(14, 0), TimeOfDay(15, 0))))
  {
    AfternoonRangeMatch();
    AfternoonRangeReading();
    ExtractTimeOfRange(AfternoonRange, 2,
      ClockRange(Clock(Some(Afternoon), 4, 5, 5, NoMinute), 6, Clock(None, 7, 8, 8, NoMinute)));
  }

  lemma AfternoonRangeNormal(text: string)
    requires text == AfternoonRange
    ensures Normalizer.Normalize(text) == text
  {
    Normalizer.NormalizeFixesSimplified(AfternoonRange);
  }

  lemma AfternoonRangeDate(text: string)
    requires text == AfternoonRange
    ensures ExtractDate(text, Date(2025, 11, 28)) == Ok(Date(2025, 11, 29))
  {
    TomorrowAt(AfternoonRange, 0, Date(2025, 11, 28));
    DayAfterExampleDate();
  }

  lemma AfternoonRangeTitle(text: string)
    requires text == AfternoonRange
    ensures ExtractTitle(text) == "会议"
  {
    MeetingAt(AfternoonRange, 12);
  }

  /** "明天下午2点到3点,团队会议" on 2025-11-28: the range pattern gives
      14:00 to 15:00 tomorrow (the end takes the start's 下午), and the title
      is the fixed word 会议. */
  lemma ExampleAfternoonRange(text: string, today: Date)
    requires text == AfternoonRange && today == Date(2025, 11, 28)
    ensures Parse(text, today) ==
      Ok(Schedule("会议", DateTime(Date(2025, 11, 29), TimeOfDay(14, 0)), DateTime(Date(2025, 11, 29), TimeOfDay(15, 0))))
  {
    AfternoonRangeNormal(text);
    AfternoonRangeDate(text);
    AfternoonRangeTitle(text);
    AfternoonRangeTime(text);
    SettledPair(text, today, Date(2025, 11, 29), TimeOfDay(14, 0), TimeOfDay(15, 0), "会议");
  }

  // ---------------------------------------------------------------------
  // Worked example: no time of day
  // ---------------------------------------------------------------------

  const NoTime := "明天开会"

  lemma NoTimeDate(text: string, today: Date)
    requires text == NoTime && ValidDate(today) && today != Date(MaxYear, 12, 31)
    ensures ExtractDate(text, today).Ok?
  {
    TomorrowAt(NoTime, 0, today);
    LastDay(today);
    ShiftDateInRange(today, 1);
  }

  lemma NoTimeNormal(text: string)
    requires text == NoTime
    ensures Normalizer.Normalize(text) == text
  {
    Normalizer.NormalizeFixesSimplified(NoTime);
  }

  lemma NoTimeNoClock(text: string)
    requires text == NoTime
    ensures forall k: nat, m: Clock :: !ClockMatchAt(text, k, m)
  {
    NoDianNoClock(NoTime);
  }

  /** "明天开会" has no 点, so `parse` fails for want of a time (on any day
      but the last representable one, where moving to tomorrow overflows
      first). */
  lemma ExampleNoTime(text: string, today: Date)
    requires text == NoTime && ValidDate(today) && today != Date(MaxYear, 12, 31)
    ensures Parse(text, today) == Err(NoTimeFound)
  {
    NoTimeNormal(text);
    NoTimeNoClock(text);
    NoTimeDate(text, today);
    ParseNoTimeFound(text, today);
  }

  // ---------------------------------------------------------------------
  // Worked example: a range whose end names its own period
  // ---------------------------------------------------------------------

  const MorningToAfternoon := "上午10点到下午2点"

  lemma MorningToAfternoonNoRange()
    ensures SearchRange(MorningToAfternoon, 0).None?
  {
    SeparatorsUnfollowed(MorningToAfternoon);
  }

  lemma MorningToAfternoonClock()
    ensures SearchClock(MorningToAfternoon, 0) == Some((0, Clock(Some(Morning), 2, 4, 4, NoMinute)))
  {
    var s := MorningToAfternoon;
    assert PeriodAt(s, 0) == Some(Morning);
    PeriodClockAt(s, 0, Morning, 4);
    NoMinuteAt(s, 5);
    assert ScanClockAt(s, 0) == Some(Clock(Some(Morning), 2, 4, 4, NoMinute));
  }

  lemma MorningToAfternoonReading()
    ensures Placed(MorningToAfternoon, Clock(Some(Morning), 2, 4, 4, NoMinute))
    ensures SingleTimes(MorningToAfternoon, Clock(Some(Morning), 2, 4, 4, NoMinute)) ==
            Ok((TimeOfDay(10, 0), TimeOfDay(10, 0)))
  {
    var s := MorningToAfternoon;
    var m := Clock(Some(Morning), 2, 4, 4, NoMinute);
    assert HourToken(s, m) == "10";
    assert ChineseToNumber("10") == Ok(10) by {
      DecimalRoundTrip(10);
      assert DecimalString(10) == "10";
    }
    assert ReadClock(s, m) == Ok((10, 0));
  }

  lemma MorningToAfternoonTime(text: string)
    requires text == MorningToAfternoon
    ensures ExtractTime(text) == Ok(Some((TimeOfDay(10, 0), TimeOfDay(10, 0))))
  {
    MorningToAfternoonNoRange();
    MorningToAfternoonClock();
    MorningToAfternoonReading();
    ExtractTimeOfSingle(MorningToAfternoon, 0, Clock(Some(Morning), 2, 4, 4, NoMinute));
  }

  lemma MorningToAfternoonNormal(text: string)
    requires text == MorningToAfternoon
    ensures Normalizer.Normalize(text) == text
  {
    Normalizer.NormalizeFixesSimplified(MorningToAfternoon);
  }

  lemma MorningToAfternoonDate(text: string, today: Date)
    requires text == MorningToAfternoon && ValidDate(today)
    ensures ExtractDate(text, today) == Ok(today)
  {
    NoDayWord(MorningToAfternoon, today);
  }

  lemma MorningToAfternoonTitle(text: string)
    requires text == MorningToAfternoon
    ensures ExtractTitle(text) == "日程"
  {
    DefaultTitle(MorningToAfternoon);
  }

  lemma MorningToAfternoonEnd()
    ensures LaterByOneHour(Date(2025, 11, 28), TimeOfDay(10, 0)) == Ok(TimeOfDay(11, 0))
  {
  }

  /** "上午10点到下午2点": the range pattern does not allow a period word after
      到, so it matches nowhere; the single pattern takes 上午10点 and the
      entry runs from 10:00 to 11:00 today under the default title. */
  lemma ExampleMorningToAfternoon(text: string, today: Date)
    requires text == MorningToAfternoon && today == Date(2025, 11, 28)
    ensures Parse(text, today) ==
      Ok(Schedule("日程", DateTime(Date(2025, 11, 28), TimeOfDay(10, 0)), DateTime(Date(2025, 11, 28), TimeOfDay(11, 0))))
  {
    MorningToAfternoonNormal(text);
    MorningToAfternoonDate(text, today);
    MorningToAfternoonTitle(text);
    MorningToAfternoonTime(text);
    MorningToAfternoonEnd();
    SettledPoint(text, today, today, TimeOfDay(10, 0), TimeOfDay(11, 0), "日程");
  }

  // ---------------------------------------------------------------------
  // Worked example: half past eleven at night
  // ---------------------------------------------------------------------

  const LateEvening := "晚上11点半"

  lemma LateEveningClock()
    ensures SearchClock(LateEvening, 0) == Some((0, Clock(Some(Evening), 2, 4, 4, Half)))
  {
    var s := LateEvening;
    assert PeriodAt(s, 0) == Some(Evening);
    PeriodClockAt(s, 0, Evening, 4);
    assert ScanMinuteGroup(s, 5) == Half;
  }

  lemma LateEveningReading()
    ensures Placed(LateEvening, Clock(Some(Evening), 2, 4, 4, Half))
    ensures SingleTimes(LateEvening, Clock(Some(Evening), 2, 4, 4, Half)) ==
            Ok((TimeOfDay(23, 30), TimeOfDay(23, 30)))
  {
    var s := LateEvening;
    var m := Clock(Some(Evening), 2, 4, 4, Half);
    assert HourToken(s, m) == "11";
    assert ChineseToNumber("11") == Ok(11) by {
      DecimalRoundTrip(11);
      assert DecimalString(11) == "11";
    }
    assert ReadClock(s, m) == Ok((11, 30));
  }

  lemma LateEveningTime(text: string)
    requires text == LateEvening
    ensures ExtractTime(text) == Ok(Some((TimeOfDay(23, 30), TimeOfDay(23, 30))))
  {
    NoSeparatorNoRange(LateEvening);
    LateEveningClock();
    LateEveningReading();
    ExtractTimeOfSingle(LateEvening, 0, Clock(Some(Evening), 2, 4, 4, Half));
  }

  lemma LateEveningNormal(text: string)
    requires text == LateEvening
    ensures Normalizer.Normalize(text) == text
  {
    Normalizer.NormalizeFixesSimplified(LateEvening);
  }

  lemma LateEveningDate(text: string, today: Date)
    requires text == LateEvening && ValidDate(today)
    ensures ExtractDate(text, today) == Ok(today)
  {
    NoDayWord(LateEvening, today);
  }

  lemma LateEveningTitle(text: string)
    requires text == LateEvening
    ensures ExtractTitle(text) == "日程"
  {
    DefaultTitle(LateEvening);
  }

  lemma LateEveningEnd()
    ensures LaterByOneHour(Date(2025, 11, 28), TimeOfDay(23, 30)) == Ok(TimeOfDay(0, 30))
    ensures AddOneHour(DateTime(Date(2025, 11, 28), TimeOfDay(23, 30))) ==
            Ok(DateTime(Date(2025, 11, 29), TimeOfDay(0, 30)))
  {
    DayAfterExampleDate();
  }

  /** "晚上11点半" on 2025-11-28, as written: 23:30 is widened to 00:30 of the
      same day, so the entry ends before it starts. */
  lemma ExampleLateEvening(text: string, today: Date)
    requires text == LateEvening && today == Date(2025, 11, 28)
    ensures Parse(text, today) ==
      Ok(Schedule("日程", DateTime(Date(2025, 11, 28), TimeOfDay(23, 30)), DateTime(Date(2025, 11, 28), TimeOfDay(0, 30))))
  {
    LateEveningNormal(text);
    LateEveningDate(text, today);
    LateEveningTitle(text);
    LateEveningTime(text);
    LateEveningEnd();
    SettledPoint(text, today, today, TimeOfDay(23, 30), TimeOfDay(0, 30), "日程");
  }

  /** The same sentence with the corrected widening: the entry ends at 00:30
      the next day. */
  lemma ExampleLateEveningCarried(text: string, today: Date)
    requires text == LateEvening && today == Date(2025, 11, 28)
    ensures ParseCarried(text, today) ==
      Ok(Schedule("日程", DateTime(Date(2025, 11, 28), TimeOfDay(23, 30)), DateTime(Date(2025, 11, 29), TimeOfDay(0, 30))))
  {
    LateEveningNormal(text);
    LateEveningDate(text, today);
    LateEveningTitle(text);
    LateEveningTime(text);
    LateEveningEnd();
    ParseCarriedOfPoint(text, today, today, TimeOfDay(23, 30));
  }

  // ---------------------------------------------------------------------
  // Worked example: an hour too wide for a C int
  // ---------------------------------------------------------------------

  const HugeHour := "3000000000点"

  /** A run of ASCII digits ending in 点 has no date word, no range
      separator, nothing to normalise and no title keyword. */
  lemma DigitsThenDian(text: string)
    requires |text| > 0 && text[|text| - 1] == '点'
    requires forall k :: 0 <= k < |text| - 1 ==> Numerals.IsAsciiDigit(text[k])
    ensures forall i :: 0 <= i < |text| ==> text[i] != '天' && !IsRangeSeparator(text[i])
    ensures forall i :: 0 <= i < |text| ==> text[i] !in "兩會幫點憶後鐘"
  {
  }

  lemma HugeHourChars(text: string)
    requires text == HugeHour
    ensures |text| == 11 && text[10] == '点'
    ensures forall k :: 0 <= k < 10 ==> Numerals.IsAsciiDigit(text[k])
  {
  }

  lemma HugeHourClock(text: string)
    requires text == HugeHour
    ensures SearchClock(text, 0) == Some((0, Clock(None, 0, 10, 10, NoMinute)))
  {
    assert PeriodAt(text, 0) == None;
    PlainClockBody(text, 0, 10, None);
    NoMinuteAt(text, 11);
    assert ScanClockAt(text, 0) == Some(Clock(None, 0, 10, 10, NoMinute));
  }

  lemma HugeHourReading(text: string)
    requires text == HugeHour
    ensures Placed(text, Clock(None, 0, 10, 10, NoMinute))
    ensures ReadClock(text, Clock(None, 0, 10, 10, NoMinute)) == Ok((3000000000, 0))
  {
    var m := Clock(None, 0, 10, 10, NoMinute);
    assert HourToken(text, m) == "3000000000";
    HugeHourNumeral();
  }

  /** Three thousand million, written in ASCII digits, reads back as itself. */
  lemma HugeHourNumeral()
    ensures ChineseToNumber("3000000000") == Ok(3000000000)
  {
    DecimalRoundTrip(3000000000);
    // one digit per step keeps each unfolding of DecimalString small
    assert DecimalString(3) == "3";
    assert DecimalString(30) == "30";
    assert DecimalString(300) == "300";
    assert DecimalString(3000) == "3000";
    assert DecimalString(30000) == "30000";
    assert DecimalString(300000) == "300000";
    assert DecimalString(3000000) == "3000000";
    assert DecimalString(30000000) == "30000000";
    assert DecimalString(300000000) == "300000000";
    assert DecimalString(3000000000) == "3000000000";
  }

  lemma HugeHourTime(text: string)
    requires text == HugeHour
    ensures ExtractTime(text) == Err(TimeArgOverflow)
  {
    HugeHourChars(text);
    DigitsThenDian(text);
    NoSeparatorNoRange(text);
    HugeHourClock(text);
    HugeHourReading(text);
    ExtractTimeOfSingle(text, 0, Clock(None, 0, 10, 10, NoMinute));
  }

  lemma HugeHourNormal(text: string)
    requires text == HugeHour
    ensures Normalizer.Normalize(text) == text
  {
    HugeHourChars(text);
    DigitsThenDian(text);
    Normalizer.NormalizeFixesSimplified(text);
  }

  lemma HugeHourDate(text: string, today: Date)
    requires text == HugeHour && ValidDate(today)
    ensures ExtractDate(text, today) == Ok(today)
  {
    HugeHourChars(text);
    DigitsThenDian(text);
    NoDayWord(text, today);
  }

  /** "3000000000点": the digits pass the numeral class and convert, but the
      hour does not fit the C int that `time()` reads it into, so `parse`
      ends with the overflow rather than the range error. */
  lemma ExampleHugeHour(text: string, today: Date)
    requires text == HugeHour && ValidDate(today)
    ensures Parse(text, today) == Err(TimeArgOverflow)
  {
    HugeHourNormal(text);
    HugeHourDate(text, today);
    HugeHourTime(text);
    SettledTimeError(text, today, today, TimeArgOverflow);
  }
}
