/**
 * The two strptime grammars the script uses: the 12-hour times "%I:%M%p" and "%I%p" of
 * parse_duration, and the day labels "%b %d" of as_ical_event. Each directive is the
 * alternation CPython's _strptime compiles it to, tried in order; the whole string must be
 * consumed ("unconverted data remains" otherwise). Because the token after every numeric
 * directive is never a digit, the regex engine's backtracking into a shorter alternative
 * can never succeed, so a deterministic left-to-right scan accepts the same strings.
 */
module Strptime {
  import opened Common
  import opened Chars
  import opened Civil

  /** A naive time of day, as strptime returns it on its default date 1900-01-01. */
  datatype Time = Time(hour: int, minute: int)

  predicate ValidTime(t: Time) { 0 <= t.hour < 24 && 0 <= t.minute < 60 }

  /** "%I:%M%p" and "%I%p". */
  datatype TimeFormat = HourMinuteAmPm | HourAmPm

  /** The formats parse_duration tries, in its order. */
  const Formats: seq<TimeFormat> := [HourMinuteAmPm, HourAmPm]

  /** %I: 1[0-2] | 0[1-9] | [1-9] */
  function MatchHour12(s: string): (r: Option<(int, string)>)
    ensures r.Some? ==> 1 <= r.value.0 <= 12
  {
    if |s| >= 2 && s[0] == '1' && '0' <= s[1] <= '2' then Some((10 + DigitValue(s[1]), s[2..]))
    else if |s| >= 2 && s[0] == '0' && '1' <= s[1] <= '9' then Some((DigitValue(s[1]), s[2..]))
    else if |s| >= 1 && '1' <= s[0] <= '9' then Some((DigitValue(s[0]), s[1..]))
    else None
  }

  /** %M: [0-5]\d | \d */
  function MatchMinute(s: string): (r: Option<(int, string)>)
    ensures r.Some? ==> 0 <= r.value.0 < 60
  {
    if |s| >= 2 && '0' <= s[0] <= '5' && IsDigit(s[1]) then Some((10 * DigitValue(s[0]) + DigitValue(s[1]), s[2..]))
    else if |s| >= 1 && IsDigit(s[0]) then Some((DigitValue(s[0]), s[1..]))
    else None
  }

  /** %p: am | pm, ignoring case; true for pm. */
  function MatchAmPm(s: string): (r: Option<(bool, string)>)
    ensures r.Some? <==> |s| >= 2 && Lower(s[0]) in "ap" && Lower(s[1]) == 'm'
    ensures r.Some? ==> r.value.1 == s[2..] && (r.value.0 <==> Lower(s[0]) == 'p')
  {
    if |s| >= 2 && (Lower(s[0]) == 'a' || Lower(s[0]) == 'p') && Lower(s[1]) == 'm' then Some((Lower(s[0]) == 'p', s[2..]))
    else None
  }

  /** The hour strptime sets from %I and %p. */
  function To24(h12: int, pm: bool): int {
    if !pm then (if h12 == 12 then 0 else h12)
    else (if h12 == 12 then 12 else h12 + 12)
  }

  /** datetime.strptime(bit, fmt), keeping only the time of day; None for ValueError. */
  function StrptimeTime(bit: string, fmt: TimeFormat): (r: Option<Time>)
    ensures r.Some? ==> ValidTime(r.value)
    ensures r.Some? && fmt == HourAmPm ==> r.value.minute == 0
  {
    match MatchHour12(bit)
    case None => None
    case Some((h, rest)) =>
      if fmt == HourAmPm then
        match MatchAmPm(rest)
        case None => None
        case Some((pm, tail)) => if tail == [] then Some(Time(To24(h, pm), 0)) else None
      else if |rest| >= 1 && rest[0] == ':' then
        match MatchMinute(rest[1..])
        case None => None
        case Some((m, rest2)) =>
          match MatchAmPm(rest2)
          case None => None
          case Some((pm, tail)) => if tail == [] then Some(Time(To24(h, pm), m)) else None
      else None
  }

  /** The first of `formats` under which `bit` parses. */
  function FirstParse(bit: string, formats: seq<TimeFormat>): (r: Option<Time>)
    ensures r.None? <==> forall i :: 0 <= i < |formats| ==> StrptimeTime(bit, formats[i]).None?
    ensures r.Some? ==> exists i :: (0 <= i < |formats| && StrptimeTime(bit, formats[i]) == r
      && forall j :: 0 <= j < i ==> StrptimeTime(bit, formats[j]).None?)
  {
    if |formats| == 0 then None
    else if StrptimeTime(bit, formats[0]).Some? then StrptimeTime(bit, formats[0])
    else
      var r := FirstParse(bit, formats[1..]);
      assert forall i :: 1 <= i < |formats| ==> formats[i] == formats[1..][i - 1];
      r
  }

  /** The time one " - "-separated fragment stands for: "%I:%M%p" first, then "%I%p". */
  function ParseFragment(bit: string): (r: Option<Time>)
    ensures r.Some? ==> ValidTime(r.value)
  {
    FirstParse(bit, Formats)
  }

  /** A fragment takes its "%I:%M%p" time when it has one, and otherwise what "%I%p" gives. */
  lemma ParseFragmentTriesInOrder(bit: string)
    ensures StrptimeTime(bit, HourMinuteAmPm).Some? ==> ParseFragment(bit) == StrptimeTime(bit, HourMinuteAmPm)
    ensures StrptimeTime(bit, HourMinuteAmPm).None? ==> ParseFragment(bit) == StrptimeTime(bit, HourAmPm)
  {
    assert |Formats| == 2 && Formats[0] == HourMinuteAmPm && Formats[1] == HourAmPm;
  }

  // ---------------------------------------------------------------------------
  // The accepted spellings, written out, and the 12-hour clock.

  /**
   * One way of writing a 12-hour time: the hour with or without a leading zero, an
   * optional minute in one or two digits, and "am"/"pm" in any case.
   */
  datatype Spelling = Spelling(hour: int, zeroPad: bool, minute: Option<int>, twoDigitMinute: bool,
                               pm: bool, upperFirst: bool, upperM: bool)

  predicate WellSpelled(sp: Spelling) {
    && 1 <= sp.hour <= 12
    && (sp.zeroPad ==> sp.hour < 10)
    && (sp.minute.Some? ==> 0 <= sp.minute.value < 60 && (sp.minute.value >= 10 ==> sp.twoDigitMinute))
  }

  function HourText(h: int, zeroPad: bool): string
    requires 1 <= h <= 12
  {
    if h >= 10 then [DigitChar(1), DigitChar(h - 10)]
    else if zeroPad then ['0', DigitChar(h)]
    else [DigitChar(h)]
  }

  function MinuteText(m: int, twoDigits: bool): string
    requires 0 <= m < 60
  {
    if twoDigits then [DigitChar(m / 10), DigitChar(m % 10)] else [DigitChar(m % 10)]
  }

  function AmPmText(pm: bool, upperFirst: bool, upperM: bool): string {
    [if pm then (if upperFirst then 'P' else 'p') else (if upperFirst then 'A' else 'a'),
     if upperM then 'M' else 'm']
  }

  function Spell(sp: Spelling): string
    requires WellSpelled(sp)
  {
    HourText(sp.hour, sp.zeroPad)
    + (if sp.minute.Some? then [':'] + MinuteText(sp.minute.value, sp.twoDigitMinute) else [])
    + AmPmText(sp.pm, sp.upperFirst, sp.upperM)
  }

  function SpelledTime(sp: Spelling): Time {
    Time(To24(sp.hour, sp.pm), if sp.minute.Some? then sp.minute.value else 0)
  }

  /** 12am is hour 0, 12pm is hour 12, other pm hours add 12, other am hours stay. */
  lemma To24Clock(h: int, pm: bool)
    requires 1 <= h <= 12
    ensures 0 <= To24(h, pm) < 24
    ensures h == 12 ==> To24(h, pm) == (if pm then 12 else 0)
    ensures h < 12 ==> To24(h, pm) == (if pm then h + 12 else h)
    ensures pm <==> To24(h, pm) >= 12
  {
  }

  /** The 12-hour clock names every hour of the day exactly once. */
  lemma To24Bijective(h1: int, pm1: bool, h2: int, pm2: bool)
    requires 1 <= h1 <= 12 && 1 <= h2 <= 12
    ensures To24(h1, pm1) == To24(h2, pm2) <==> h1 == h2 && pm1 == pm2
  {
  }

  lemma HourTextMatches(h: int, zeroPad: bool, rest: string)
    requires 1 <= h <= 12 && (zeroPad ==> h < 10)
    requires rest == [] || !IsDigit(rest[0])
    ensures MatchHour12(HourText(h, zeroPad) + rest) == Some((h, rest))
  {
    var s := HourText(h, zeroPad) + rest;
    if h >= 10 {
      assert s[2..] == rest;
    } else if zeroPad {
      assert s[2..] == rest;
    } else {
      assert s[1..] == rest;
    }
  }

  lemma MinuteTextMatches(m: int, twoDigits: bool, rest: string)
    requires 0 <= m < 60 && (m >= 10 ==> twoDigits)
    requires rest == [] || !IsDigit(rest[0])
    ensures MatchMinute(MinuteText(m, twoDigits) + rest) == Some((m, rest))
  {
    var s := MinuteText(m, twoDigits) + rest;
    if twoDigits {
      assert s[2..] == rest;
    } else {
      assert s[1..] == rest;
    }
  }

  lemma AmPmTextMatches(pm: bool, upperFirst: bool, upperM: bool, rest: string)
    ensures MatchAmPm(AmPmText(pm, upperFirst, upperM) + rest) == Some((pm, rest))
  {
    var s := AmPmText(pm, upperFirst, upperM) + rest;
    assert Lower(s[0]) == (if pm then 'p' else 'a');
    assert Lower(s[1]) == 'm';
    assert s[2..] == rest;
  }

  /** An accepted spelling is one word: digits, a colon and letters, never a space. */
  lemma SpellingHasNoSpace(sp: Spelling)
    requires WellSpelled(sp)
    ensures ' ' !in Spell(sp)
  {
    var s := Spell(sp);
    forall i | 0 <= i < |s|
      ensures s[i] != ' '
    {
      var h := HourText(sp.hour, sp.zeroPad);
      var ap := AmPmText(sp.pm, sp.upperFirst, sp.upperM);
      var mid := if sp.minute.Some? then [':'] + MinuteText(sp.minute.value, sp.twoDigitMinute) else [];
      assert s == h + mid + ap;
      if i < |h| {
        assert s[i] == h[i] && IsDigit(h[i]);
      } else if i < |h| + |mid| {
        assert s[i] == mid[i - |h|];
        if i > |h| {
          assert IsDigit(mid[i - |h|]);
        }
      } else {
        assert s[i] == ap[i - |h| - |mid|];
      }
    }
  }

  /** "%I:%M%p" accepts a text exactly when its hour, colon, minute and am/pm scan in turn and use it all up. */
  lemma MinuteFormatSteps(bit: string)
    ensures StrptimeTime(bit, HourMinuteAmPm).Some? <==>
      && MatchHour12(bit).Some?
      && |MatchHour12(bit).value.1| >= 1 && MatchHour12(bit).value.1[0] == ':'
      && MatchMinute(MatchHour12(bit).value.1[1..]).Some?
      && MatchAmPm(MatchMinute(MatchHour12(bit).value.1[1..]).value.1).Some?
      && MatchAmPm(MatchMinute(MatchHour12(bit).value.1[1..]).value.1).value.1 == []
    ensures StrptimeTime(bit, HourMinuteAmPm).Some? ==>
      StrptimeTime(bit, HourMinuteAmPm).value
      == Time(To24(MatchHour12(bit).value.0, MatchAmPm(MatchMinute(MatchHour12(bit).value.1[1..]).value.1).value.0),
               MatchMinute(MatchHour12(bit).value.1[1..]).value.0)
  {
  }

  /** "%I%p" accepts a text exactly when its hour and am/pm scan in turn and use it all up. */
  lemma HourFormatSteps(bit: string)
    ensures StrptimeTime(bit, HourAmPm).Some? <==>
      && MatchHour12(bit).Some?
      && MatchAmPm(MatchHour12(bit).value.1).Some?
      && MatchAmPm(MatchHour12(bit).value.1).value.1 == []
    ensures StrptimeTime(bit, HourAmPm).Some? ==>
      StrptimeTime(bit, HourAmPm).value == Time(To24(MatchHour12(bit).value.0, MatchAmPm(MatchHour12(bit).value.1).value.0), 0)
  {
  }

  /** A spelling with minutes parses under the first format. */
  lemma MinuteSpellingParses(sp: Spelling)
    requires WellSpelled(sp) && sp.minute.Some?
    ensures StrptimeTime(Spell(sp), HourMinuteAmPm) == Some(SpelledTime(sp))
  {
    var ap := AmPmText(sp.pm, sp.upperFirst, sp.upperM);
    AmPmTextMatches(sp.pm, sp.upperFirst, sp.upperM, []);
    assert ap + [] == ap;
    var mt := MinuteText(sp.minute.value, sp.twoDigitMinute);
    MinuteTextMatches(sp.minute.value, sp.twoDigitMinute, ap);
    var tail := [':'] + mt + ap;
    HourTextMatches(sp.hour, sp.zeroPad, tail);
    assert Spell(sp) == HourText(sp.hour, sp.zeroPad) + tail;
    assert tail[1..] == mt + ap;
    MinuteFormatSteps(Spell(sp));
  }

  /** A whole-hour spelling fails the first format and parses under the second. */
  lemma HourSpellingParses(sp: Spelling)
    requires WellSpelled(sp) && sp.minute.None?
    ensures StrptimeTime(Spell(sp), HourMinuteAmPm).None?
    ensures StrptimeTime(Spell(sp), HourAmPm) == Some(SpelledTime(sp))
  {
    var ap := AmPmText(sp.pm, sp.upperFirst, sp.upperM);
    AmPmTextMatches(sp.pm, sp.upperFirst, sp.upperM, []);
    assert ap + [] == ap;
    HourTextMatches(sp.hour, sp.zeroPad, ap);
    assert Spell(sp) == HourText(sp.hour, sp.zeroPad) + ap;
    MinuteFormatSteps(Spell(sp));
    HourFormatSteps(Spell(sp));
  }

  /** Every well-formed spelling parses back to the time it spells. */
  lemma SpellingParses(sp: Spelling)
    requires WellSpelled(sp)
    ensures ParseFragment(Spell(sp)) == Some(SpelledTime(sp))
  {
    var s := Spell(sp);
    if sp.minute.Some? {
      MinuteSpellingParses(sp);
    } else {
      HourSpellingParses(sp);
      assert Formats[1..] == [HourAmPm];
      assert FirstParse(s, [HourAmPm]) == StrptimeTime(s, HourAmPm);
    }
  }

  lemma MatchHourSpelled(s: string) returns (pad: bool)
    requires MatchHour12(s).Some?
    ensures pad ==> MatchHour12(s).value.0 < 10
    ensures s == HourText(MatchHour12(s).value.0, pad) + MatchHour12(s).value.1
  {
    var (h, rest) := MatchHour12(s).value;
    pad := |s| >= 2 && s[0] == '0';
    if |s| >= 2 && s[0] == '1' && '0' <= s[1] <= '2' {
      assert s == HourText(h, pad) + rest;
    } else if |s| >= 2 && s[0] == '0' && '1' <= s[1] <= '9' {
      assert s == HourText(h, pad) + rest;
    } else {
      assert s == HourText(h, pad) + rest;
    }
  }

  lemma MatchMinuteSpelled(s: string) returns (two: bool)
    requires MatchMinute(s).Some?
    ensures MatchMinute(s).value.0 >= 10 ==> two
    ensures s == MinuteText(MatchMinute(s).value.0, two) + MatchMinute(s).value.1
  {
    var (m, rest) := MatchMinute(s).value;
    two := |s| >= 2 && '0' <= s[0] <= '5' && IsDigit(s[1]);
    assert s == MinuteText(m, two) + rest;
  }

  lemma MatchAmPmSpelled(s: string) returns (uf: bool, um: bool)
    requires MatchAmPm(s).Some?
    ensures s == AmPmText(MatchAmPm(s).value.0, uf, um) + MatchAmPm(s).value.1
  {
    uf, um := 'A' <= s[0] <= 'Z', 'A' <= s[1] <= 'Z';
    assert s == AmPmText(MatchAmPm(s).value.0, uf, um) + s[2..];
  }

  /** The pieces scanned off a "%I:%M%p" fragment put back together give the fragment. */
  lemma MinutePiecesJoin(bit: string, ht: string, rest: string, mt: string, at: string)
    requires bit == ht + rest && |rest| >= 1 && rest[0] == ':' && rest[1..] == mt + at
    ensures bit == ht + ([':'] + mt) + at
  {
    assert rest == [':'] + (mt + at);
  }

  /** A fragment "%I:%M%p" accepts is a spelling with minutes of the time it parses to. */
  lemma MinuteFormatSpelled(bit: string) returns (sp: Spelling)
    requires StrptimeTime(bit, HourMinuteAmPm).Some?
    ensures WellSpelled(sp) && Spell(sp) == bit && StrptimeTime(bit, HourMinuteAmPm) == Some(SpelledTime(sp))
  {
    MinuteFormatSteps(bit);
    var (h, rest) := MatchHour12(bit).value;
    var pad := MatchHourSpelled(bit);
    var (m, rest2) := MatchMinute(rest[1..]).value;
    var two := MatchMinuteSpelled(rest[1..]);
    var (pm, tail) := MatchAmPm(rest2).value;
    var uf, um := MatchAmPmSpelled(rest2);
    var at := AmPmText(pm, uf, um);
    assert rest2 == at;
    MinutePiecesJoin(bit, HourText(h, pad), rest, MinuteText(m, two), at);
    sp := Spelling(h, pad, Some(m), two, pm, uf, um);
  }

  /** A fragment "%I%p" accepts is a whole-hour spelling of the time it parses to. */
  lemma HourFormatSpelled(bit: string) returns (sp: Spelling)
    requires StrptimeTime(bit, HourAmPm).Some?
    ensures WellSpelled(sp) && Spell(sp) == bit && StrptimeTime(bit, HourAmPm) == Some(SpelledTime(sp))
  {
    HourFormatSteps(bit);
    var (h, rest) := MatchHour12(bit).value;
    var pad := MatchHourSpelled(bit);
    var (pm, tail) := MatchAmPm(rest).value;
    var uf, um := MatchAmPmSpelled(rest);
    assert tail == [];
    sp := Spelling(h, pad, None, false, pm, uf, um);
  }

  /** Conversely, a fragment parses only if it is one of those spellings, and to the time it spells. */
  lemma ParsedFragmentIsSpelled(bit: string)
    requires ParseFragment(bit).Some?
    ensures exists sp :: WellSpelled(sp) && Spell(sp) == bit && ParseFragment(bit) == Some(SpelledTime(sp))
  {
    if StrptimeTime(bit, HourMinuteAmPm).Some? {
      var sp := MinuteFormatSpelled(bit);
      assert ParseFragment(bit) == StrptimeTime(bit, HourMinuteAmPm);
    } else {
      var sp := HourFormatSpelled(bit);
      assert ParseFragment(bit) == StrptimeTime(bit, HourAmPm);
    }
  }

  // ---------------------------------------------------------------------------
  // Day labels: "%b %d", validated as a date in strptime's default year 1900.

  /** The month a lower-cased abbreviation names, 0 for none. */
  function MonthNumber(w: string): int {
    if w == "jan" then 1 else if w == "feb" then 2 else if w == "mar" then 3
    else if w == "apr" then 4 else if w == "may" then 5 else if w == "jun" then 6
    else if w == "jul" then 7 else if w == "aug" then 8 else if w == "sep" then 9
    else if w == "oct" then 10 else if w == "nov" then 11 else if w == "dec" then 12
    else 0
  }

  /** %b in the C locale: the month number of a three-letter abbreviation, ignoring case. */
  function MatchMonth(s: string): (r: Option<(int, string)>)
    ensures r.Some? ==> 1 <= r.value.0 <= 12 && |s| >= 3 && r.value.1 == s[3..]
  {
    if |s| >= 3 && MonthNumber([Lower(s[0]), Lower(s[1]), Lower(s[2])]) != 0
    then Some((MonthNumber([Lower(s[0]), Lower(s[1]), Lower(s[2])]), s[3..]))
    else None
  }

  /** The greedy `\s` run the space of "%b %d" compiles to. */
  function SkipSpaces(s: string): (r: string)
    ensures |r| <= |s| && r == s[|s| - |r|..]
    ensures r == [] || !IsSpace(r[0])
    ensures forall i :: 0 <= i < |s| - |r| ==> IsSpace(s[i])
  {
    if |s| > 0 && IsSpace(s[0]) then SkipSpaces(s[1..]) else s
  }

  /** %d: 3[01] | [12]\d | 0[1-9] | [1-9] (its last alternative, " [1-9]", cannot start after a `\s` run). */
  function MatchDay(s: string): (r: Option<(int, string)>)
    ensures r.Some? ==> 1 <= r.value.0 <= 31
  {
    if |s| >= 2 && s[0] == '3' && (s[1] == '0' || s[1] == '1') then Some((30 + DigitValue(s[1]), s[2..]))
    else if |s| >= 2 && (s[0] == '1' || s[0] == '2') && IsDigit(s[1]) then Some((10 * DigitValue(s[0]) + DigitValue(s[1]), s[2..]))
    else if |s| >= 2 && s[0] == '0' && '1' <= s[1] <= '9' then Some((DigitValue(s[1]), s[2..]))
    else if |s| >= 1 && '1' <= s[0] <= '9' then Some((DigitValue(s[0]), s[1..]))
    else None
  }

  /** datetime.strptime(dayLabel, "%b %d"): (month, day), a valid date in 1900, or None for ValueError. */
  function ParseDayLabel(dayLabel: string): (r: Option<(int, int)>)
    ensures r.Some? ==> ValidDate(Date(1900, r.value.0, r.value.1))
  {
    match MatchMonth(dayLabel)
    case None => None
    case Some((m, rest)) =>
      if rest == [] || !IsSpace(rest[0]) then None
      else
        match MatchDay(SkipSpaces(rest))
        case None => None
        case Some((d, tail)) =>
          if tail == [] && d <= DaysInMonth(1900, m) then Some((m, d)) else None
  }

  /**
   * strptime(dayLabel, "%b %d").replace(year=year): the label's month and day in `year`.
   * ValueError when the label is not a date in 1900 or the year is outside 1..9999.
   */
  function ResolveDay(dayLabel: string, year: int): (r: Result<Date>)
    ensures r.Ok? <==> ParseDayLabel(dayLabel).Some? && MinYear <= year <= MaxYear
    ensures r.Ok? ==> (ValidDate(r.value) && InRange(r.value) && r.value.year == year
      && (r.value.month, r.value.day) == ParseDayLabel(dayLabel).value)
    ensures ParseDayLabel(dayLabel).None? ==> r == Err(DateFormat(dayLabel))
    ensures ParseDayLabel(dayLabel).Some? && !(MinYear <= year <= MaxYear) ==> r == Err(YearRange(year))
  {
    match ParseDayLabel(dayLabel)
    case None => Err(DateFormat(dayLabel))
    case Some((m, d)) =>
      if MinYear <= year <= MaxYear then Ok(Date(year, m, d)) else Err(YearRange(year))
  }

  /** The C locale's abbreviations as strftime writes them. */
  function MonthLabel(m: int): string
    requires 1 <= m <= 12
  {
    match m
    case 1 => "Jan" case 2 => "Feb" case 3 => "Mar" case 4 => "Apr"
    case 5 => "May" case 6 => "Jun" case 7 => "Jul" case 8 => "Aug"
    case 9 => "Sep" case 10 => "Oct" case 11 => "Nov" case _ => "Dec"
  }

  /** strftime("%b %d"): the abbreviation, a space and a two-digit day. */
  function FormatDayLabel(m: int, d: int): string
    requires 1 <= m <= 12 && 1 <= d <= 31
  {
    MonthLabel(m) + [' ', DigitChar(d / 10), DigitChar(d % 10)]
  }

  lemma MonthLabelMatches(m: int, rest: string)
    requires 1 <= m <= 12
    ensures MatchMonth(MonthLabel(m) + rest) == Some((m, rest))
  {
    var s := MonthLabel(m) + rest;
    var l := MonthLabel(m);
    assert s[..3] == l;
    assert MonthNumber([Lower(l[0]), Lower(l[1]), Lower(l[2])]) == m;
    assert s[3..] == rest;
  }

  /** A label is read as month, one space run, and day, which must be a date of 1900. */
  lemma ParseDayLabelFrom(s: string, m: int, rest: string, d: int)
    requires MatchMonth(s) == Some((m, rest))
    requires |rest| > 0 && IsSpace(rest[0])
    requires MatchDay(SkipSpaces(rest)) == Some((d, []))
    ensures ParseDayLabel(s) == if d <= DaysInMonth(1900, m) then Some((m, d)) else None
  {
  }

  lemma SkipOneSpace(digits: string)
    requires |digits| == 2 && IsDigit(digits[0])
    ensures SkipSpaces([' '] + digits) == digits
  {
    assert ([' '] + digits)[1..] == digits;
  }

  /** The label strftime writes for a date of 1900 parses back to that month and day. */
  lemma DayLabelRoundTrip(m: int, d: int)
    requires ValidDate(Date(1900, m, d))
    ensures ParseDayLabel(FormatDayLabel(m, d)) == Some((m, d))
  {
    var digits := [DigitChar(d / 10), DigitChar(d % 10)];
    var rest := [' '] + digits;
    assert FormatDayLabel(m, d) == MonthLabel(m) + rest;
    MonthLabelMatches(m, rest);
    SkipOneSpace(digits);
    TwoDigitDayMatches(d);
    ParseDayLabelFrom(FormatDayLabel(m, d), m, rest, d);
  }

  lemma TwoDigitDayMatches(d: int)
    requires 1 <= d <= 31
    ensures MatchDay([DigitChar(d / 10), DigitChar(d % 10)]) == Some((d, []))
  {
    var s := [DigitChar(d / 10), DigitChar(d % 10)];
    assert DigitValue(s[0]) == d / 10 && DigitValue(s[1]) == d % 10;
    assert s[2..] == [];
    if d / 10 == 3 {
      assert d % 10 <= 1;
    }
  }

  // ---------------------------------------------------------------------------
  // The accepted day labels, written out.

  /**
   * One way of writing a label "%b %d" accepts: the month's abbreviation with each letter in
   * either case, a non-empty whitespace run, and the day in two digits or, below 10, in one
   * digit with or without a leading zero.
   */
  datatype LabelSpelling = LabelSpelling(month: int, capitals: seq<bool>, gap: string, day: int, padded: bool)

  predicate WellSpelledLabel(sp: LabelSpelling) {
    && 1 <= sp.month <= 12 && |sp.capitals| == 3
    && |sp.gap| > 0 && (forall i :: 0 <= i < |sp.gap| ==> IsSpace(sp.gap[i]))
    && 1 <= sp.day <= 31
  }

  /** A small ASCII letter, made a capital when `capital` holds. */
  function Cased(c: char, capital: bool): char {
    if capital && 'a' <= c <= 'z' then ((c as int) - 32) as char else c
  }

  function SpellMonth(m: int, capitals: seq<bool>): string
    requires 1 <= m <= 12 && |capitals| == 3
  {
    var l := MonthLabel(m);
    [Cased(Lower(l[0]), capitals[0]), Cased(Lower(l[1]), capitals[1]), Cased(Lower(l[2]), capitals[2])]
  }

  function SpellDay(d: int, padded: bool): string
    requires 1 <= d <= 31
  {
    if d >= 10 then [DigitChar(d / 10), DigitChar(d % 10)]
    else if padded then ['0', DigitChar(d)]
    else [DigitChar(d)]
  }

  function SpellLabel(sp: LabelSpelling): string
    requires WellSpelledLabel(sp)
  {
    SpellMonth(sp.month, sp.capitals) + sp.gap + SpellDay(sp.day, sp.padded)
  }

  lemma LowerCased(c: char, capital: bool)
    ensures Lower(Cased(Lower(c), capital)) == Lower(c)
  {
  }

  /** %b accepts the abbreviation of every month in any mix of cases. */
  lemma MonthSpellingMatches(m: int, capitals: seq<bool>, rest: string)
    requires 1 <= m <= 12 && |capitals| == 3
    ensures MatchMonth(SpellMonth(m, capitals) + rest) == Some((m, rest))
  {
    var p := SpellMonth(m, capitals);
    SpellingLowers(m, capitals);
    var s := p + rest;
    assert s[0] == p[0] && s[1] == p[1] && s[2] == p[2];
    assert s[3..] == rest;
  }

  /** Lower-casing a spelling gives back the month's own abbreviation. */
  lemma SpellingLowers(m: int, capitals: seq<bool>)
    requires 1 <= m <= 12 && |capitals| == 3
    ensures var p := SpellMonth(m, capitals); MonthNumber([Lower(p[0]), Lower(p[1]), Lower(p[2])]) == m
  {
    var l := MonthLabel(m);
    LowerCased(l[0], capitals[0]);
    LowerCased(l[1], capitals[1]);
    LowerCased(l[2], capitals[2]);
    LabelNumber(m);
  }

  lemma LabelNumber(m: int)
    requires 1 <= m <= 12
    ensures var l := MonthLabel(m); MonthNumber([Lower(l[0]), Lower(l[1]), Lower(l[2])]) == m
  {
    var l := MonthLabel(m);
    var w := [Lower(l[0]), Lower(l[1]), Lower(l[2])];
    if m <= 6 {
      assert w == ["jan", "feb", "mar", "apr", "may", "jun"][m - 1];
    } else {
      assert w == ["jul", "aug", "sep", "oct", "nov", "dec"][m - 7];
    }
  }

  /** The abbreviations MonthNumber knows are exactly the lower-cased strftime labels. */
  lemma MonthNumberNamesLabel(w: string)
    requires MonthNumber(w) != 0
    ensures var l := MonthLabel(MonthNumber(w)); w == [Lower(l[0]), Lower(l[1]), Lower(l[2])]
  {
    var m := MonthNumber(w);
    if m <= 6 {
      assert w == ["jan", "feb", "mar", "apr", "may", "jun"][m - 1];
    } else {
      assert w == ["jul", "aug", "sep", "oct", "nov", "dec"][m - 7];
    }
    LabelNumber(m);
  }

  /** Conversely, what %b accepts is one of those spellings of the month it yields. */
  lemma MatchedMonthIsSpelled(s: string)
    requires MatchMonth(s).Some?
    ensures exists capitals :: |capitals| == 3 && s[..3] == SpellMonth(MatchMonth(s).value.0, capitals)
  {
    var p := s[..3];
    SpelledLetters(p[0], p[1], p[2]);
    assert p == [p[0], p[1], p[2]];
  }

  /** Three letters naming a month are that month's spelling with their own capitals. */
  lemma SpelledLetters(a: char, b: char, c: char)
    requires MonthNumber([Lower(a), Lower(b), Lower(c)]) != 0
    ensures [a, b, c] == SpellMonth(MonthNumber([Lower(a), Lower(b), Lower(c)]),
      ['A' <= a <= 'Z', 'A' <= b <= 'Z', 'A' <= c <= 'Z'])
  {
    var w := [Lower(a), Lower(b), Lower(c)];
    MonthNumberNamesLabel(w);
    CasedAgain(a, w[0]);
    CasedAgain(b, w[1]);
    CasedAgain(c, w[2]);
  }

  /** A character is its own lower-case form, re-cased by whether it is a capital. */
  lemma CasedAgain(c: char, x: char)
    requires Lower(c) == x
    ensures c == Cased(x, 'A' <= c <= 'Z')
  {
  }

  /** %d accepts every day 1..31 in each of its spellings, and nothing is left over. */
  lemma DaySpellingMatches(d: int, padded: bool)
    requires 1 <= d <= 31
    ensures MatchDay(SpellDay(d, padded)) == Some((d, []))
  {
    if d >= 10 {
      TwoDigitDayMatches(d);
    } else {
      var s := SpellDay(d, padded);
      assert DigitValue(DigitChar(d)) == d;
      if padded {
        assert s[2..] == [];
      } else {
        assert s[1..] == [];
      }
    }
  }

  /** Conversely, text %d reads entirely is a spelling of the day it yields. */
  lemma MatchedDayIsSpelled(s: string)
    requires MatchDay(s).Some? && MatchDay(s).value.1 == []
    ensures exists padded :: s == SpellDay(MatchDay(s).value.0, padded)
  {
    var d := MatchDay(s).value.0;
    if |s| >= 2 && s[0] == '0' {
      assert s == SpellDay(d, true);
    } else if |s| >= 2 {
      assert DigitChar(d / 10) == s[0] && DigitChar(d % 10) == s[1];
      assert s == SpellDay(d, true);
    } else {
      assert s == SpellDay(d, false);
    }
  }

  /** The greedy whitespace run consumes a whole gap and stops at what follows it. */
  lemma {:induction false} SkipGap(gap: string, t: string)
    requires forall i :: 0 <= i < |gap| ==> IsSpace(gap[i])
    requires t == [] || !IsSpace(t[0])
    ensures SkipSpaces(gap + t) == t
    decreases |gap|
  {
    if |gap| > 0 {
      assert (gap + t)[1..] == gap[1..] + t;
      SkipGap(gap[1..], t);
    } else {
      assert gap + t == t;
    }
  }

  /** Every spelt label is accepted when its day exists in 1900, and rejected otherwise. */
  lemma LabelSpellingParses(sp: LabelSpelling)
    requires WellSpelledLabel(sp)
    ensures ParseDayLabel(SpellLabel(sp)) == if sp.day <= DaysInMonth(1900, sp.month) then Some((sp.month, sp.day)) else None
  {
    var digits := SpellDay(sp.day, sp.padded);
    var rest := sp.gap + digits;
    assert SpellLabel(sp) == SpellMonth(sp.month, sp.capitals) + rest;
    MonthSpellingMatches(sp.month, sp.capitals, rest);
    SkipGap(sp.gap, digits);
    DaySpellingMatches(sp.day, sp.padded);
    ParseDayLabelFrom(SpellLabel(sp), sp.month, rest, sp.day);
  }

  /** Conversely, every label strptime accepts is a spelling of the month and day it yields. */
  lemma ParsedLabelIsSpelled(s: string)
    requires ParseDayLabel(s).Some?
    ensures exists sp :: (WellSpelledLabel(sp) && SpellLabel(sp) == s
      && ParseDayLabel(s).value == (sp.month, sp.day))
  {
    ParsedLabelParts(s);
    var rest := MatchMonth(s).value.1;
    var t := SkipSpaces(rest);
    var d := MatchDay(t).value.0;
    MatchedDayIsSpelled(t);
    var padded :| t == SpellDay(d, padded);
    var gap := LeadingGap(rest);
    var sp := LabelFromParts(s, gap, t, d, padded);
  }

  /** A label read as %b, a gap and a spelt day is the spelling made of those parts. */
  lemma LabelFromParts(s: string, gap: string, t: string, d: int, padded: bool) returns (sp: LabelSpelling)
    requires MatchMonth(s).Some? && MatchMonth(s).value.1 == gap + t
    requires |gap| > 0 && forall i :: 0 <= i < |gap| ==> IsSpace(gap[i])
    requires 1 <= d <= 31 && t == SpellDay(d, padded)
    ensures WellSpelledLabel(sp) && SpellLabel(sp) == s
    ensures sp.month == MatchMonth(s).value.0 && sp.day == d
  {
    var p := s[..3];
    var capitals := ['A' <= p[0] <= 'Z', 'A' <= p[1] <= 'Z', 'A' <= p[2] <= 'Z'];
    MatchedMonthLetters(s);
    sp := LabelSpelling(MatchMonth(s).value.0, capitals, gap, d, padded);
    JoinLabel(s, gap, t);
  }

  /** What a successful ParseDayLabel has read: %b, a whitespace run, then %d to the end. */
  lemma ParsedLabelParts(s: string)
    requires ParseDayLabel(s).Some?
    ensures MatchMonth(s).Some? && |MatchMonth(s).value.1| > 0 && IsSpace(MatchMonth(s).value.1[0])
    ensures var t := SkipSpaces(MatchMonth(s).value.1);
      MatchDay(t).Some? && MatchDay(t).value.1 == []
      && ParseDayLabel(s).value == (MatchMonth(s).value.0, MatchDay(t).value.0)
  {
  }

  /** The letters %b matched are the month's spelling with their own capitals. */
  lemma MatchedMonthLetters(s: string)
    requires MatchMonth(s).Some?
    ensures var p := s[..3];
      p == SpellMonth(MatchMonth(s).value.0, ['A' <= p[0] <= 'Z', 'A' <= p[1] <= 'Z', 'A' <= p[2] <= 'Z'])
  {
    var p := s[..3];
    SpelledLetters(p[0], p[1], p[2]);
    assert p == [p[0], p[1], p[2]];
  }

  /** The whitespace run at the head of `rest`, which SkipSpaces drops. */
  lemma LeadingGap(rest: string) returns (gap: string)
    requires |rest| > 0 && IsSpace(rest[0])
    ensures |gap| > 0 && (forall i :: 0 <= i < |gap| ==> IsSpace(gap[i]))
    ensures rest == gap + SkipSpaces(rest)
  {
    var t := SkipSpaces(rest);
    gap := rest[..|rest| - |t|];
    assert rest == gap + t;
  }

  lemma JoinLabel(s: string, gap: string, t: string)
    requires |s| >= 3 && s[3..] == gap + t
    ensures s == s[..3] + gap + t
  {
    assert s == s[..3] + s[3..];
  }

  lemma Feb29Parts()
    ensures MatchMonth("Feb 29") == Some((2, " 29"))
    ensures SkipSpaces(" 29") == "29" && MatchDay("29") == Some((29, []))
  {
    MonthLabelMatches(2, " 29");
    assert MonthLabel(2) + " 29" == "Feb 29";
    assert [DigitChar(29 / 10), DigitChar(29 % 10)] == "29";
    SkipOneSpace("29");
    assert [' '] + "29" == " 29";
    TwoDigitDayMatches(29);
  }

  /** "Feb 29" is not a date in 1900, so it is rejected whatever year is asked for. */
  lemma Feb29Rejected(year: int)
    ensures ResolveDay("Feb 29", year) == Err(DateFormat("Feb 29"))
  {
    Feb29Parts();
    ParseDayLabelFrom("Feb 29", 2, " 29", 29);
  }
}
