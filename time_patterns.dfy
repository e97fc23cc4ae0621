/** The two time-of-day regular expressions of `extract_time`, searched for by
    a hand-written scanner. The single pattern is

      (早上|上午|中午|下午|晚上)?\s*(N+)\s*点(半|N+分)?

    and the range pattern is the same followed by `\s*(?:到|至)` and a second
    copy without the period group, where N is the class
    `[0-9零一二三四五六七八九十两百]`. ClockMatchAt and RangeMatchAt say
    what it means for a pattern to match at a position; the scanner is proved
    to find the leftmost match with the choices Python's backtracking makes. */
module TimePatterns {
  import opened Results
  import Numerals

  /** `\s` in a str pattern: the characters Python treats as whitespace. */
  predicate IsSpace(c: char)
  {
    var n := c as int;
    (9 <= n <= 13) || (28 <= n <= 32) || n == 0x85 || n == 0xA0 || n == 0x1680
    || (0x2000 <= n <= 0x200A) || n == 0x2028 || n == 0x2029 || n == 0x202F
    || n == 0x205F || n == 0x3000
  }

  /** The numeral class N. */
  predicate IsNumeral(c: char)
  {
    || Numerals.IsAsciiDigit(c)
    || c == '零' || c == '一' || c == '二' || c == '三' || c == '四' || c == '五'
    || c == '六' || c == '七' || c == '八' || c == '九' || c == '十' || c == '两' || c == '百'
  }

  /** The range separators 到 and 至. */
  predicate IsRangeSeparator(c: char)
  {
    c == '到' || c == '至'
  }

  /** The day-period words, in the order the alternation lists them. */
  datatype Period = EarlyMorning | Morning | Noon | Afternoon | Evening

  function PeriodWord(p: Period): string
  {
    match p
    case EarlyMorning => "早上"
    case Morning => "上午"
    case Noon => "中午"
    case Afternoon => "下午"
    case Evening => "晚上"
  }

  /** The period word starting at `i`, if any. */
  function PeriodAt(text: string, i: nat): (r: Option<Period>)
    requires i <= |text|
    ensures r.Some? ==> i + 2 <= |text| && text[i..i + 2] == PeriodWord(r.value)
    ensures r.None? ==> forall p :: !(i + 2 <= |text| && text[i..i + 2] == PeriodWord(p))
  {
    if i + 2 <= |text| then
      var a, b := text[i], text[i + 1];
      assert text[i..i + 2] == [a, b];
      if a == '早' && b == '上' then Some(EarlyMorning)
      else if a == '上' && b == '午' then Some(Morning)
      else if a == '中' && b == '午' then Some(Noon)
      else if a == '下' && b == '午' then Some(Afternoon)
      else if a == '晚' && b == '上' then Some(Evening)
      else None
    else None
  }

  /** The optional minute group after 点: absent, 半, or a numeral run
      `[start, end)` followed by 分 at `end`. */
  datatype MinuteGroup = NoMinute | Half | Minutes(start: nat, end: nat)

  /** One match of the single pattern: the period group, the hour numeral
      `[hourStart, hourEnd)`, the position of 点 and the minute group. */
  datatype Clock = Clock(period: Option<Period>, hourStart: nat, hourEnd: nat, dian: nat, minute: MinuteGroup)

  /** One match of the range pattern: the start clock, the position of the
      separator, and the end clock (which has no period group). */
  datatype ClockRange = ClockRange(first: Clock, sep: nat, second: Clock)

  /** The position just after a clock match. */
  function ClockEnd(m: Clock): nat
  {
    match m.minute
    case NoMinute => m.dian + 1
    case Half => m.dian + 2
    case Minutes(_, e) => e + 1
  }

  ghost predicate AllSpace(text: string, lo: nat, hi: nat)
  {
    lo <= hi <= |text| && forall k :: lo <= k < hi ==> IsSpace(text[k])
  }

  ghost predicate AllNumeral(text: string, lo: nat, hi: nat)
  {
    lo <= hi <= |text| && forall k :: lo <= k < hi ==> IsNumeral(text[k])
  }

  /** `(半|N+分)?` matches as `g` at position `at`. */
  ghost predicate MinuteGroupAt(text: string, at: nat, g: MinuteGroup)
  {
    match g
    case NoMinute => at <= |text|
    case Half => at < |text| && text[at] == '半'
    case Minutes(s, e) => s == at && s < e < |text| && AllNumeral(text, s, e) && text[e] == '分'
  }

  /** `\s*(N+)\s*点(半|N+分)?` matches as `m` from position `j`. */
  ghost predicate ClockBodyAt(text: string, j: nat, m: Clock)
  {
    && AllSpace(text, j, m.hourStart)
    && m.hourStart < m.hourEnd
    && AllNumeral(text, m.hourStart, m.hourEnd)
    && AllSpace(text, m.hourEnd, m.dian)
    && m.dian < |text| && text[m.dian] == '点'
    && MinuteGroupAt(text, m.dian + 1, m.minute)
  }

  /** The single pattern matches as `m` starting at position `i`. */
  ghost predicate ClockMatchAt(text: string, i: nat, m: Clock)
  {
    match m.period
    case None => ClockBodyAt(text, i, m)
    case Some(p) => i + 2 <= |text| && text[i..i + 2] == PeriodWord(p) && ClockBodyAt(text, i + 2, m)
  }

  /** The range pattern matches as `r` starting at position `i`. */
  ghost predicate RangeMatchAt(text: string, i: nat, r: ClockRange)
  {
    && ClockMatchAt(text, i, r.first)
    && AllSpace(text, ClockEnd(r.first), r.sep)
    && r.sep < |text| && IsRangeSeparator(text[r.sep])
    && r.second.period.None?
    && ClockMatchAt(text, r.sep + 1, r.second)
  }

  /** `m` is `m'`, or `m'` with its final optional group filled in: the only
      freedom a match at a fixed position has. */
  predicate Covers(m: Clock, m': Clock)
  {
    m.(minute := NoMinute) == m'.(minute := NoMinute) && (m'.minute.NoMinute? || m.minute == m'.minute)
  }

  predicate CoversRange(r: ClockRange, r': ClockRange)
  {
    r.first == r'.first && r.sep == r'.sep && Covers(r.second, r'.second)
  }

  // ---------------------------------------------------------------------
  // The scanner
  // ---------------------------------------------------------------------

  /** The end of the whitespace run starting at `j`. */
  function SkipSpaces(text: string, j: nat): (k: nat)
    requires j <= |text|
    ensures j <= k <= |text| && AllSpace(text, j, k)
    ensures k == |text| || !IsSpace(text[k])
    decreases |text| - j
  {
    if j < |text| && IsSpace(text[j]) then SkipSpaces(text, j + 1) else j
  }

  /** The end of the numeral run starting at `j`. */
  function SkipNumerals(text: string, j: nat): (k: nat)
    requires j <= |text|
    ensures j <= k <= |text| && AllNumeral(text, j, k)
    ensures k == |text| || !IsNumeral(text[k])
    decreases |text| - j
  {
    if j < |text| && IsNumeral(text[j]) then SkipNumerals(text, j + 1) else j
  }

  /** The greedy choice for `(半|N+分)?`: 半 first, then a numeral run ending in 分. */
  function ScanMinuteGroup(text: string, at: nat): (g: MinuteGroup)
    requires at <= |text|
    ensures MinuteGroupAt(text, at, g)
  {
    if at < |text| && text[at] == '半' then Half
    else
      var e := SkipNumerals(text, at);
      if at < e < |text| && text[e] == '分' then Minutes(at, e) else NoMinute
  }

  /** `\s*(N+)\s*点(半|N+分)?` from position `j`. */
  function ScanClockBody(text: string, j: nat, period: Option<Period>): (r: Option<Clock>)
    requires j <= |text|
    ensures r.Some? ==> ClockBodyAt(text, j, r.value) && r.value.period == period
    ensures r.Some? ==> ClockEnd(r.value) <= |text|
  {
    var hs := SkipSpaces(text, j);
    var he := SkipNumerals(text, hs);
    if he == hs then None
    else
      var d := SkipSpaces(text, he);
      if d < |text| && text[d] == '点' then Some(Clock(period, hs, he, d, ScanMinuteGroup(text, d + 1)))
      else None
  }

  /** The single pattern at position `i`: with the period group if one starts
      here, otherwise (or if that fails) without it. */
  function ScanClockAt(text: string, i: nat): (r: Option<Clock>)
    requires i <= |text|
    ensures r.Some? ==> ClockMatchAt(text, i, r.value) && ClockEnd(r.value) <= |text|
  {
    match PeriodAt(text, i)
    case Some(p) =>
      var m := ScanClockBody(text, i + 2, Some(p));
      if m.Some? then m else ScanClockBody(text, i, None)
    case None => ScanClockBody(text, i, None)
  }

  /** The rest of the range pattern, `\s*(?:到|至)` and the end clock, after
      the start clock `first`. */
  function ScanRangeTail(text: string, first: Clock): (r: Option<(nat, Clock)>)
    requires ClockEnd(first) <= |text|
    ensures r.Some? ==> && AllSpace(text, ClockEnd(first), r.value.0)
                        && r.value.0 < |text| && IsRangeSeparator(text[r.value.0])
                        && r.value.1.period.None?
                        && ClockMatchAt(text, r.value.0 + 1, r.value.1)
  {
    var s := SkipSpaces(text, ClockEnd(first));
    if s < |text| && IsRangeSeparator(text[s]) then
      match ScanClockBody(text, s + 1, None)
      case None => None
      case Some(second) => Some((s, second))
    else None
  }

  /** The range pattern from position `j`, given the period group already read. */
  function ScanRangeBody(text: string, j: nat, period: Option<Period>): (r: Option<ClockRange>)
    requires j <= |text|
    ensures r.Some? ==> r.value.first.period == period && ClockBodyAt(text, j, r.value.first)
    ensures r.Some? ==> && AllSpace(text, ClockEnd(r.value.first), r.value.sep)
                        && r.value.sep < |text| && IsRangeSeparator(text[r.value.sep])
                        && r.value.second.period.None?
                        && ClockMatchAt(text, r.value.sep + 1, r.value.second)
  {
    match ScanClockBody(text, j, period)
    case None => None
    case Some(first) =>
      match ScanRangeTail(text, first)
      case None => None
      case Some(tail) => Some(ClockRange(first, tail.0, tail.1))
  }

  /** The range pattern at position `i`. */
  function ScanRangeAt(text: string, i: nat): (r: Option<ClockRange>)
    requires i <= |text|
    ensures r.Some? ==> RangeMatchAt(text, i, r.value)
  {
    match PeriodAt(text, i)
    case Some(p) =>
      var m := ScanRangeBody(text, i + 2, Some(p));
      if m.Some? then m else ScanRangeBody(text, i, None)
    case None => ScanRangeBody(text, i, None)
  }

  /** `re.search` with the single pattern, trying start positions from `i` on. */
  function SearchClock(text: string, i: nat): (r: Option<(nat, Clock)>)
    requires i <= |text|
    ensures r.Some? ==> i <= r.value.0 <= |text| && ClockMatchAt(text, r.value.0, r.value.1)
    decreases |text| - i
  {
    match ScanClockAt(text, i)
    case Some(m) => Some((i, m))
    case None => if i == |text| then None else SearchClock(text, i + 1)
  }

  /** `re.search` with the range pattern, trying start positions from `i` on. */
  function SearchRange(text: string, i: nat): (r: Option<(nat, ClockRange)>)
    requires i <= |text|
    ensures r.Some? ==> i <= r.value.0 <= |text| && RangeMatchAt(text, r.value.0, r.value.1)
    decreases |text| - i
  {
    match ScanRangeAt(text, i)
    case Some(m) => Some((i, m))
    case None => if i == |text| then None else SearchRange(text, i + 1)
  }

  // ---------------------------------------------------------------------
  // Completeness: the scanner misses no match and makes the greedy choice
  // ---------------------------------------------------------------------

  /** A whitespace run that stops at a non-space is the one SkipSpaces finds. */
  lemma MaximalSpaces(text: string, j: nat, k: nat)
    requires AllSpace(text, j, k) && (k == |text| || !IsSpace(text[k]))
    ensures SkipSpaces(text, j) == k
  {
  }

  /** A numeral run that stops at a non-numeral is the one SkipNumerals finds. */
  lemma MaximalNumerals(text: string, j: nat, k: nat)
    requires AllNumeral(text, j, k) && (k == |text| || !IsNumeral(text[k]))
    ensures SkipNumerals(text, j) == k
  {
  }

  /** Any match of the body from `j` is covered by what the scanner returns. */
  lemma ScanClockBodyComplete(text: string, j: nat, period: Option<Period>, m': Clock)
    requires ClockBodyAt(text, j, m') && m'.period == period
    ensures ScanClockBody(text, j, period).Some?
    ensures Covers(ScanClockBody(text, j, period).value, m')
  {
    assert !IsSpace(text[m'.hourStart]);
    MaximalSpaces(text, j, m'.hourStart);
    if m'.hourEnd < m'.dian {
      assert !IsNumeral(text[m'.hourEnd]);
    }
    MaximalNumerals(text, m'.hourStart, m'.hourEnd);
    MaximalSpaces(text, m'.hourEnd, m'.dian);
    var g := ScanMinuteGroup(text, m'.dian + 1);
    match m'.minute
    case NoMinute =>
    case Half =>
    case Minutes(s, e) =>
      assert IsNumeral(text[s]);
      MaximalNumerals(text, s, e);
  }

  /** A clock match never starts at the first character of a period word
      unless it reads that word. */
  lemma BodyStartsWithoutPeriod(text: string, i: nat, m: Clock)
    requires ClockBodyAt(text, i, m)
    ensures PeriodAt(text, i).None?
  {
    var c := text[i];
    assert IsSpace(c) || IsNumeral(c);
    assert c != '早' && c != '上' && c != '中' && c != '下' && c != '晚';
  }

  /** The single pattern at a position: found exactly when it matches there,
      and what is found covers every match there. */
  lemma ScanClockAtCorrect(text: string, i: nat, m': Clock)
    requires i <= |text| && ClockMatchAt(text, i, m')
    ensures ScanClockAt(text, i).Some? && Covers(ScanClockAt(text, i).value, m')
  {
    match m'.period
    case None =>
      BodyStartsWithoutPeriod(text, i, m');
      ScanClockBodyComplete(text, i, None, m');
    case Some(p) =>
      assert PeriodAt(text, i) == Some(p);
      ScanClockBodyComplete(text, i + 2, Some(p), m');
  }

  /** Inside a range match the first minute group is forced: the
      separator that must follow rules out every other choice. */
  lemma FirstMinuteForced(text: string, j: nat, m': Clock, sep: nat)
    requires ClockBodyAt(text, j, m')
    requires AllSpace(text, ClockEnd(m'), sep) && sep < |text| && IsRangeSeparator(text[sep])
    ensures ScanMinuteGroup(text, m'.dian + 1) == m'.minute
  {
    var at := m'.dian + 1;
    match m'.minute
    case NoMinute =>
      var c := text[at];
      assert IsSpace(c) || IsRangeSeparator(c);
      assert !IsNumeral(c) && c != '半';
      assert SkipNumerals(text, at) == at;
    case Half =>
    case Minutes(s, e) =>
      assert IsNumeral(text[s]);
      MaximalNumerals(text, s, e);
  }

  /** The scanner's minute group is the greedy one after 点. */
  lemma ScanClockBodyMinute(text: string, j: nat, period: Option<Period>)
    requires j <= |text| && ScanClockBody(text, j, period).Some?
    ensures var m := ScanClockBody(text, j, period).value;
            m.minute == ScanMinuteGroup(text, m.dian + 1)
  {
  }

  /** The start clock the scanner reads in front of a range separator is
      exactly the one the range match used. */
  lemma FirstClockExact(text: string, j: nat, period: Option<Period>, m': Clock, sep: nat)
    requires ClockBodyAt(text, j, m') && m'.period == period
    requires AllSpace(text, ClockEnd(m'), sep) && sep < |text| && IsRangeSeparator(text[sep])
    ensures ScanClockBody(text, j, period) == Some(m')
  {
    ScanClockBodyComplete(text, j, period, m');
    FirstMinuteForced(text, j, m', sep);
    var first := ScanClockBody(text, j, period).value;
    ScanClockBodyMinute(text, j, period);
    assert first.period == m'.period && first.hourStart == m'.hourStart;
    assert first.hourEnd == m'.hourEnd && first.dian == m'.dian;
  }

  /** ScanRangeTail once the separator and the end clock have been read. */
  lemma ScanRangeTailValue(text: string, first: Clock, sep: nat)
    requires ClockEnd(first) <= |text| && SkipSpaces(text, ClockEnd(first)) == sep
    requires sep < |text| && IsRangeSeparator(text[sep])
    requires ScanClockBody(text, sep + 1, None).Some?
    ensures ScanRangeTail(text, first) == Some((sep, ScanClockBody(text, sep + 1, None).value))
  {
  }

  /** The tail of a range match is found, with the separator where the
      match has it. */
  lemma ScanRangeTailComplete(text: string, first: Clock, sep: nat, second': Clock)
    requires ClockEnd(first) <= |text| && AllSpace(text, ClockEnd(first), sep)
    requires sep < |text| && IsRangeSeparator(text[sep])
    requires second'.period.None? && ClockBodyAt(text, sep + 1, second')
    ensures ScanRangeTail(text, first).Some?
    ensures ScanRangeTail(text, first).value.0 == sep
    ensures Covers(ScanRangeTail(text, first).value.1, second')
  {
    MaximalSpaces(text, ClockEnd(first), sep);
    ScanClockBodyComplete(text, sep + 1, None, second');
    ScanRangeTailValue(text, first, sep);
  }

  lemma ScanRangeBodyComplete(text: string, j: nat, period: Option<Period>, r': ClockRange)
    requires ClockBodyAt(text, j, r'.first) && r'.first.period == period
    requires AllSpace(text, ClockEnd(r'.first), r'.sep)
    requires r'.sep < |text| && IsRangeSeparator(text[r'.sep])
    requires r'.second.period.None? && ClockMatchAt(text, r'.sep + 1, r'.second)
    ensures ScanRangeBody(text, j, period).Some?
    ensures CoversRange(ScanRangeBody(text, j, period).value, r')
  {
    FirstClockExact(text, j, period, r'.first, r'.sep);
    ScanRangeTailComplete(text, r'.first, r'.sep, r'.second);
  }

  /** The range pattern at a position: found exactly when it matches there,
      and what is found covers every match there. */
  lemma ScanRangeAtCorrect(text: string, i: nat, r': ClockRange)
    requires i <= |text| && RangeMatchAt(text, i, r')
    ensures ScanRangeAt(text, i).Some? && CoversRange(ScanRangeAt(text, i).value, r')
  {
    match r'.first.period
    case None =>
      BodyStartsWithoutPeriod(text, i, r'.first);
      ScanRangeBodyComplete(text, i, None, r');
    case Some(p) =>
      assert PeriodAt(text, i) == Some(p);
      ScanRangeBodyComplete(text, i + 2, Some(p), r');
  }

  // ---------------------------------------------------------------------
  // Leftmost search
  // ---------------------------------------------------------------------

  /** `m` is what `re.search` reports for the single pattern: a match at `i`,
      none further left, and no match at `i` that extends it. */
  ghost predicate IsLeftmostClock(text: string, i: nat, m: Clock)
  {
    && ClockMatchAt(text, i, m)
    && (forall k: nat, m': Clock :: k < i ==> !ClockMatchAt(text, k, m'))
    && (forall m': Clock :: ClockMatchAt(text, i, m') ==> Covers(m, m'))
  }

  /** `r` is what `re.search` reports for the range pattern. */
  ghost predicate IsLeftmostRange(text: string, i: nat, r: ClockRange)
  {
    && RangeMatchAt(text, i, r)
    && (forall k: nat, r': ClockRange :: k < i ==> !RangeMatchAt(text, k, r'))
    && (forall r': ClockRange :: RangeMatchAt(text, i, r') ==> CoversRange(r, r'))
  }

  /** A match starts inside the text. */
  lemma MatchStartsInside(text: string, k: nat, m: Clock)
    ensures ClockMatchAt(text, k, m) ==> k < |text|
  {
  }

  lemma SearchClockAtEnd(text: string)
    ensures SearchClock(text, |text|).None?
    ensures forall k: nat, m': Clock :: |text| <= k ==> !ClockMatchAt(text, k, m')
  {
    forall k: nat, m': Clock | |text| <= k ensures !ClockMatchAt(text, k, m') {
      MatchStartsInside(text, k, m');
    }
  }

  lemma SearchRangeAtEnd(text: string)
    ensures SearchRange(text, |text|).None?
    ensures forall k: nat, r': ClockRange :: |text| <= k ==> !RangeMatchAt(text, k, r')
  {
    forall k: nat, r': ClockRange | |text| <= k ensures !RangeMatchAt(text, k, r') {
      MatchStartsInside(text, k, r'.first);
    }
  }

  lemma NoClockAt(text: string, i: nat)
    requires i <= |text| && ScanClockAt(text, i).None?
    ensures forall m': Clock :: !ClockMatchAt(text, i, m')
  {
    forall m': Clock ensures !ClockMatchAt(text, i, m') {
      if ClockMatchAt(text, i, m') {
        ScanClockAtCorrect(text, i, m');
      }
    }
  }

  lemma NoRangeAt(text: string, i: nat)
    requires i <= |text| && ScanRangeAt(text, i).None?
    ensures forall r': ClockRange :: !RangeMatchAt(text, i, r')
  {
    forall r': ClockRange ensures !RangeMatchAt(text, i, r') {
      if RangeMatchAt(text, i, r') {
        ScanRangeAtCorrect(text, i, r');
      }
    }
  }

  /** What the single-pattern search from `i` promises: no match starts
      before the reported one, the reported one covers every match at its
      position, and nothing at or after `i` matches when nothing is found. */
  ghost predicate ClockSearchSound(text: string, i: nat)
    requires i <= |text|
  {
    && (SearchClock(text, i).Some? ==>
      && (forall k: nat, m': Clock :: i <= k < SearchClock(text, i).value.0 ==> !ClockMatchAt(text, k, m'))
      && (forall m': Clock :: ClockMatchAt(text, SearchClock(text, i).value.0, m') ==>
            Covers(SearchClock(text, i).value.1, m')))
    && (SearchClock(text, i).None? ==> forall k: nat, m': Clock :: i <= k ==> !ClockMatchAt(text, k, m'))
  }

  /** The range search's counterpart of ClockSearchSound. */
  ghost predicate RangeSearchSound(text: string, i: nat)
    requires i <= |text|
  {
    && (SearchRange(text, i).Some? ==>
      && (forall k: nat, r': ClockRange :: i <= k < SearchRange(text, i).value.0 ==> !RangeMatchAt(text, k, r'))
      && (forall r': ClockRange :: RangeMatchAt(text, SearchRange(text, i).value.0, r') ==>
            CoversRange(SearchRange(text, i).value.1, r')))
    && (SearchRange(text, i).None? ==> forall k: nat, r': ClockRange :: i <= k ==> !RangeMatchAt(text, k, r'))
  }

  lemma ClockFoundAt(text: string, i: nat, m: Clock)
    requires i <= |text| && ScanClockAt(text, i) == Some(m)
    ensures ClockSearchSound(text, i)
  {
    assert SearchClock(text, i) == Some((i, m));
    forall m': Clock | ClockMatchAt(text, i, m') ensures Covers(m, m') {
      ScanClockAtCorrect(text, i, m');
    }
  }

  lemma RangeFoundAt(text: string, i: nat, r: ClockRange)
    requires i <= |text| && ScanRangeAt(text, i) == Some(r)
    ensures RangeSearchSound(text, i)
  {
    assert SearchRange(text, i) == Some((i, r));
    forall r': ClockRange | RangeMatchAt(text, i, r') ensures CoversRange(r, r') {
      ScanRangeAtCorrect(text, i, r');
    }
  }

  lemma ClockSkipped(text: string, i: nat)
    requires i < |text| && ScanClockAt(text, i).None?
    requires ClockSearchSound(text, i + 1)
    ensures ClockSearchSound(text, i)
  {
    NoClockAt(text, i);
    assert SearchClock(text, i) == SearchClock(text, i + 1);
    var later := SearchClock(text, i + 1);
    forall k: nat, m': Clock | i <= k && (later.None? || k < later.value.0)
      ensures !ClockMatchAt(text, k, m')
    {
      if k == i {
        assert !ClockMatchAt(text, i, m');
      } else {
        assert i + 1 <= k;
      }
    }
  }

  lemma RangeSkipped(text: string, i: nat)
    requires i < |text| && ScanRangeAt(text, i).None?
    requires RangeSearchSound(text, i + 1)
    ensures RangeSearchSound(text, i)
  {
    NoRangeAt(text, i);
    assert SearchRange(text, i) == SearchRange(text, i + 1);
    var later := SearchRange(text, i + 1);
    forall k: nat, r': ClockRange | i <= k && (later.None? || k < later.value.0)
      ensures !RangeMatchAt(text, k, r')
    {
      if k == i {
        assert !RangeMatchAt(text, i, r');
      } else {
        assert i + 1 <= k;
      }
    }
  }

  lemma {:induction false} SearchClockFrom(text: string, i: nat)
    requires i <= |text|
    ensures ClockSearchSound(text, i)
    decreases |text| - i
  {
    match ScanClockAt(text, i)
    case Some(m) =>
      ClockFoundAt(text, i, m);
    case None =>
      if i < |text| {
        SearchClockFrom(text, i + 1);
        ClockSkipped(text, i);
      } else {
        SearchClockAtEnd(text);
      }
  }

  lemma {:induction false} SearchRangeFrom(text: string, i: nat)
    requires i <= |text|
    ensures RangeSearchSound(text, i)
    decreases |text| - i
  {
    match ScanRangeAt(text, i)
    case Some(r) =>
      RangeFoundAt(text, i, r);
    case None =>
      if i < |text| {
        SearchRangeFrom(text, i + 1);
        RangeSkipped(text, i);
      } else {
        SearchRangeAtEnd(text);
      }
  }

  /** The single-pattern search reports exactly the leftmost greedy match, and
      nothing when the pattern matches nowhere. */
  lemma SearchClockIsLeftmost(text: string)
    ensures forall i: nat, m: Clock :: SearchClock(text, 0) == Some((i, m)) <==> IsLeftmostClock(text, i, m)
    ensures SearchClock(text, 0).None? <==> forall k: nat, m': Clock :: !ClockMatchAt(text, k, m')
  {
    SearchClockFrom(text, 0);
    forall i: nat, m: Clock | IsLeftmostClock(text, i, m) ensures SearchClock(text, 0) == Some((i, m)) {
      var (i0, m0) := SearchClock(text, 0).value;
      assert i0 == i;
      assert Covers(m0, m) && Covers(m, m0);
    }
  }

  /** The range search reports exactly the leftmost greedy match, and nothing
      when the pattern matches nowhere. */
  lemma SearchRangeIsLeftmost(text: string)
    ensures forall i: nat, r: ClockRange :: SearchRange(text, 0) == Some((i, r)) <==> IsLeftmostRange(text, i, r)
    ensures SearchRange(text, 0).None? <==> forall k: nat, r': ClockRange :: !RangeMatchAt(text, k, r')
  {
    SearchRangeFrom(text, 0);
    forall i: nat, r: ClockRange | IsLeftmostRange(text, i, r) ensures SearchRange(text, 0) == Some((i, r)) {
      var (i0, r0) := SearchRange(text, 0).value;
      assert i0 == i;
      assert CoversRange(r0, r) && CoversRange(r, r0);
    }
  }

  /** Every range match begins with a single-pattern match. */
  lemma RangeStartsWithClock(text: string, i: nat, r: ClockRange)
    requires RangeMatchAt(text, i, r)
    ensures ClockMatchAt(text, i, r.first)
  {
  }

  /** Without a range separator in the text the range pattern matches
      nowhere and its search finds nothing. */
  lemma NoSeparatorNoRange(text: string)
    requires forall i :: 0 <= i < |text| ==> !IsRangeSeparator(text[i])
    ensures SearchRange(text, 0).None?
  {
    SearchRangeIsLeftmost(text);
  }

  /** No match of the single pattern starts at a character that is neither
      whitespace nor a numeral and does not begin a period word. */
  lemma NoClockStartsAt(text: string, i: nat)
    requires i < |text| && !IsSpace(text[i]) && !IsNumeral(text[i]) && PeriodAt(text, i).None?
    ensures ScanClockAt(text, i).None?
  {
    assert SkipSpaces(text, i) == i;
    assert SkipNumerals(text, i) == i;
  }

  /** No range match starts where no single match can start. */
  lemma NoRangeStartsAt(text: string, i: nat)
    requires i < |text| && !IsSpace(text[i]) && !IsNumeral(text[i]) && PeriodAt(text, i).None?
    ensures ScanRangeAt(text, i).None?
  {
    assert SkipSpaces(text, i) == i;
    assert SkipNumerals(text, i) == i;
  }

  /** A clock body begins with whitespace or a numeral. */
  lemma BodyStartsWithSpaceOrNumeral(text: string, j: nat, m: Clock)
    requires ClockBodyAt(text, j, m)
    ensures j < |text| && (IsSpace(text[j]) || IsNumeral(text[j]))
  {
  }

  /** When no separator in the text is followed by whitespace or a numeral,
      the range pattern matches nowhere: its end clock has no period group. */
  lemma SeparatorsUnfollowed(text: string)
    requires forall i :: 0 <= i < |text| && IsRangeSeparator(text[i]) ==>
               i + 1 < |text| && !IsSpace(text[i + 1]) && !IsNumeral(text[i + 1])
    ensures SearchRange(text, 0).None?
  {
    forall k: nat, r: ClockRange ensures !RangeMatchAt(text, k, r) {
      if RangeMatchAt(text, k, r) {
        BodyStartsWithSpaceOrNumeral(text, r.sep + 1, r.second);
      }
    }
    SearchRangeIsLeftmost(text);
  }

  /** Without 点 in the text neither pattern matches anywhere. */
  lemma NoDianNoClock(text: string)
    requires forall i :: 0 <= i < |text| ==> text[i] != '点'
    ensures forall k: nat, m: Clock :: !ClockMatchAt(text, k, m)
  {
  }
}
