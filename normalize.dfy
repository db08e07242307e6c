/**
 * as_ical_event without the icalendar library: which value each property of the event gets,
 * and which errors stop the conversion.
 */
module Normalize {
  import opened Common
  import opened Civil
  import opened Strptime
  import opened Duration
  import opened Identity
  import opened Extract

  /** SEQ_NUM, the constant revision number of every event. */
  const SeqNum := 1

  datatype Timing =
    | Timed(dtstart: DateTime, durationMinutes: int)  // start in the configured zone, and end - start
    | AllDay(dtstart: DateTime, dtend: DateTime)       // the resolved day at midnight, twice

  datatype CalendarEvent = CalendarEvent(summary: string, uid: string, sequence: string, timing: Timing)

  function MinuteOfDay(t: Time): int { t.hour * 60 + t.minute }

  function TimeText(record: Record): Option<string> {
    if "time" in record then Some(record["time"]) else None
  }

  /** The bytes fed to MD5: title, day label, decimal year, then the time text when there is one. */
  function HashInput(event: string, dayLabel: string, year: int, time: Option<string>): (r: seq<byte>)
    ensures r == Utf8(event + dayLabel + DecimalString(year) + (if time.Some? then time.value else []))
  {
    var t := if time.Some? then time.value else [];
    Utf8Append(event, dayLabel);
    Utf8Append(event + dayLabel, DecimalString(year));
    Utf8Append(event + dayLabel + DecimalString(year), t);
    Utf8(event) + Utf8(dayLabel) + Utf8(DecimalString(year)) + (if time.Some? then Utf8(time.value) else [])
  }

  /** The hash input decodes back to the fields run together, so it determines that text. */
  lemma HashInputEncodesFields(event: string, dayLabel: string, year: int, time: Option<string>)
    ensures var text := event + dayLabel + DecimalString(year) + (if time.Some? then time.value else []);
      Decode(HashInput(event, dayLabel, year, time)) == Some(text)
  {
    DecodeUtf8(event + dayLabel + DecimalString(year) + (if time.Some? then time.value else []));
  }

  /**
   * The event's times on its resolved day: midnight to midnight without a time text, otherwise
   * the two times the text holds, failing on a fragment that does not parse or a count other than two.
   */
  function EventTiming(date: Date, time: Option<string>): (r: Result<Timing>)
    ensures r.Ok? <==> (time.Some? ==> ParseAll(Split(time.value, Separator)).Ok?
                                       && |ParseAll(Split(time.value, Separator)).value| == 2)
    ensures r.Ok? ==> (r.value.Timed? <==> time.Some?)
    ensures time.Some? && ParseAll(Split(time.value, Separator)).Err? ==>
      r.Err? && r.error == ParseAll(Split(time.value, Separator)).error
    ensures time.Some? && ParseAll(Split(time.value, Separator)).Ok? && |ParseAll(Split(time.value, Separator)).value| != 2 ==>
      r.Err? && r.error == Unpack(|ParseAll(Split(time.value, Separator)).value|)
  {
    match time
    case None => Ok(AllDay(Midnight(date), Midnight(date)))
    case Some(text) =>
      match ParseAll(Split(text, Separator))
      case Err(e) => Err(e)
      case Ok(times) =>
        if |times| != 2 then Err(Unpack(|times|))
        else
          var start, end := times[0], times[1];
          Ok(Timed(DateTime(date, start.hour, start.minute), MinuteOfDay(end) - MinuteOfDay(start)))
  }

  /**
   * as_ical_event(year, event). Errors in the order the script meets them: a missing key,
   * a day label that is not a date of 1900, a year outside 1..9999, a time fragment that
   * parses under neither format, and a time text that does not hold exactly two times.
   */
  function AsICalEvent(md5: seq<byte> -> Digest, year: int, record: Record): (r: Result<CalendarEvent>)
    ensures "event" !in record ==> r == Err(KeyError("event"))
    ensures "event" in record && "day" !in record ==> r == Err(KeyError("day"))
    ensures r.Ok? <==>
      && "event" in record && "day" in record
      && ResolveDay(record["day"], year).Ok?
      && ("time" in record ==> ParseAll(Split(record["time"], Separator)).Ok?
                               && |ParseAll(Split(record["time"], Separator)).value| == 2)
    ensures r.Ok? ==> (r.value.summary == record["event"] && r.value.sequence == "1"
                       && r.value.uid == Uid(md5, HashInput(record["event"], record["day"], year, TimeText(record))))
    ensures r.Ok? ==> (r.value.timing.Timed? <==> "time" in record)
    ensures "event" in record && "day" in record && ResolveDay(record["day"], year).Err? ==>
      r.Err? && r.error == ResolveDay(record["day"], year).error
    ensures ("event" in record && "day" in record && ResolveDay(record["day"], year).Ok?
             && EventTiming(ResolveDay(record["day"], year).value, TimeText(record)).Err?) ==>
      r.Err? && r.error == EventTiming(ResolveDay(record["day"], year).value, TimeText(record)).error
  {
    if "event" !in record then Err(KeyError("event"))
    else if "day" !in record then Err(KeyError("day"))
    else
      var uid := Uid(md5, HashInput(record["event"], record["day"], year, TimeText(record)));
      var sequence := DecimalString(SeqNum);
      match ResolveDay(record["day"], year)
      case Err(e) => Err(e)
      case Ok(date) =>
        match EventTiming(date, TimeText(record))
        case Err(e) => Err(e)
        case Ok(timing) => Ok(CalendarEvent(record["event"], uid, sequence, timing))
  }

  /** An all-day event starts and ends at midnight of its label's day in the requested year. */
  lemma AllDayEvent(md5: seq<byte> -> Digest, year: int, record: Record)
    requires AsICalEvent(md5, year, record).Ok? && "time" !in record
    ensures var e := AsICalEvent(md5, year, record).value;
      var (m, d) := ParseDayLabel(record["day"]).value;
      e.timing == AllDay(DateTime(Date(year, m, d), 0, 0), DateTime(Date(year, m, d), 0, 0))
      && ValidDate(Date(year, m, d)) && MinYear <= year <= MaxYear
  {
  }

  /**
   * A timed event's text is two accepted spellings joined by " - "; it starts on its label's
   * day at the first time, and lasts the second time minus the first, negative when the end
   * is earlier (nothing wraps past midnight).
   */
  lemma TimedEvent(md5: seq<byte> -> Digest, year: int, record: Record)
    requires AsICalEvent(md5, year, record).Ok? && "time" in record
    ensures var e := AsICalEvent(md5, year, record).value;
      var (m, d) := ParseDayLabel(record["day"]).value;
      var bits := Split(record["time"], Separator);
      && |bits| == 2 && record["time"] == bits[0] + Separator + bits[1]
      && ParseFragment(bits[0]).Some? && ParseFragment(bits[1]).Some?
      && var start, end := ParseFragment(bits[0]).value, ParseFragment(bits[1]).value;
      && e.timing == Timed(DateTime(Date(year, m, d), start.hour, start.minute), MinuteOfDay(end) - MinuteOfDay(start))
      && ValidDateTime(e.timing.dtstart)
      && -MinutesPerDay < e.timing.durationMinutes < MinutesPerDay
  {
    var date := ResolveDay(record["day"], year).value;
    var (m, d) := ParseDayLabel(record["day"]).value;
    assert date == Date(year, m, d);
    assert TimeText(record) == Some(record["time"]);
    assert AsICalEvent(md5, year, record).value.timing == EventTiming(date, Some(record["time"])).value;
    TimedTiming(date, record["time"]);
  }

  lemma TimedTiming(date: Date, text: string)
    requires EventTiming(date, Some(text)).Ok?
    ensures var bits := Split(text, Separator);
      && |bits| == 2 && text == bits[0] + Separator + bits[1]
      && ParseFragment(bits[0]).Some? && ParseFragment(bits[1]).Some?
      && var start, end := ParseFragment(bits[0]).value, ParseFragment(bits[1]).value;
      && EventTiming(date, Some(text)).value == Timed(DateTime(date, start.hour, start.minute), MinuteOfDay(end) - MinuteOfDay(start))
      && -MinutesPerDay < MinuteOfDay(end) - MinuteOfDay(start) < MinutesPerDay
      && (ValidDate(date) ==> ValidDateTime(DateTime(date, start.hour, start.minute)))
  {
    var bits := Split(text, Separator);
    SplitInTwo(text, Separator);
    var times := ParseAll(bits).value;
    assert ParseFragment(bits[0]) == Some(times[0]) && ParseFragment(bits[1]) == Some(times[1]);
  }

  /** A time text that splits into two parsable times gives the timing they span. */
  lemma TimingFromParts(date: Date, text: string, first: Time, second: Time)
    requires ParseAll(Split(text, Separator)) == Ok([first, second])
    ensures EventTiming(date, Some(text)).Ok?
    ensures EventTiming(date, Some(text)).value == Timed(DateTime(date, first.hour, first.minute), MinuteOfDay(second) - MinuteOfDay(first))
  {
  }

  /** A record whose day resolves and whose time text splits into two parsable times is the timed event they give. */
  lemma TimedFromParts(md5: seq<byte> -> Digest, year: int, record: Record, date: Date, first: Time, second: Time)
    requires "event" in record && "day" in record && ResolveDay(record["day"], year) == Ok(date)
    requires "time" in record && ParseAll(Split(record["time"], Separator)) == Ok([first, second])
    ensures AsICalEvent(md5, year, record).Ok?
    ensures AsICalEvent(md5, year, record).value.timing
      == Timed(DateTime(date, first.hour, first.minute), MinuteOfDay(second) - MinuteOfDay(first))
  {
    TimingFromParts(date, record["time"], first, second);
    assert TimeText(record) == Some(record["time"]);
  }

  /** Two accepted spellings joined by " - " split back into the two times they spell. */
  lemma SpelledRangeTimes(start: Spelling, end: Spelling)
    requires WellSpelled(start) && WellSpelled(end)
    ensures ParseAll(Split(Spell(start) + Separator + Spell(end), Separator)) == Ok([SpelledTime(start), SpelledTime(end)])
  {
    var a, b := Spell(start), Spell(end);
    SpellingHasNoSpace(start);
    SpellingHasNoSpace(end);
    SplitTimeRange(a, b);
    SpellingParses(start);
    SpellingParses(end);
    ParseBoth(a, b, SpelledTime(start), SpelledTime(end));
  }

  /**
   * Conversely, two accepted spellings joined by " - " on a day that resolves give a timed
   * event at the first time lasting until the second.
   */
  lemma SpelledRangeEvent(md5: seq<byte> -> Digest, year: int, record: Record, start: Spelling, end: Spelling)
    requires WellSpelled(start) && WellSpelled(end)
    requires "event" in record && "day" in record && ResolveDay(record["day"], year).Ok?
    requires "time" in record && record["time"] == Spell(start) + Separator + Spell(end)
    ensures AsICalEvent(md5, year, record).Ok?
    ensures AsICalEvent(md5, year, record).value.timing
      == Timed(DateTime(ResolveDay(record["day"], year).value, SpelledTime(start).hour, SpelledTime(start).minute),
               MinuteOfDay(SpelledTime(end)) - MinuteOfDay(SpelledTime(start)))
  {
    SpelledRangeTimes(start, end);
    TimedFromParts(md5, year, record, ResolveDay(record["day"], year).value, SpelledTime(start), SpelledTime(end));
  }

  /** "Mar 03" is the label strftime writes for 3 March, so it reads back as that month and day. */
  lemma MarchThirdLabel()
    ensures ParseDayLabel("Mar 03") == Some((3, 3))
  {
    DayLabelRoundTrip(3, 3);
    assert FormatDayLabel(3, 3) == "Mar 03";
  }

  /** "Mar 03" resolves to 3 March of 2024. */
  lemma MarchThird()
    ensures ResolveDay("Mar 03", 2024).Ok? && ResolveDay("Mar 03", 2024).value == Date(2024, 3, 3)
  {
    MarchThirdLabel();
  }

  const MorningStart := Spelling(9, false, Some(0), true, false, false, false)
  const MorningEnd := Spelling(10, false, Some(30), true, false, false, false)

  /** The two times of "9:00am - 10:30am" as accepted spellings. */
  lemma MorningSpelling()
    ensures WellSpelled(MorningStart) && WellSpelled(MorningEnd)
    ensures Spell(MorningStart) + Separator + Spell(MorningEnd) == "9:00am - 10:30am"
    ensures SpelledTime(MorningStart) == Time(9, 0) && SpelledTime(MorningEnd) == Time(10, 30)
  {
    assert Spell(MorningStart) == "9:00am" && Spell(MorningEnd) == "10:30am";
  }

  /** "9:00am - 10:30am" on "Mar 03" in 2024 starts at 2024-03-03 09:00 and lasts 90 minutes. */
  lemma MorningEvent(md5: seq<byte> -> Digest, record: Record)
    requires "event" in record && "day" in record && "time" in record
    requires record["day"] == "Mar 03" && record["time"] == "9:00am - 10:30am"
    ensures AsICalEvent(md5, 2024, record).Ok?
    ensures AsICalEvent(md5, 2024, record).value.timing == Timed(DateTime(Date(2024, 3, 3), 9, 0), 90)
  {
    MarchThird();
    MorningSpelling();
    SpelledRangeEvent(md5, 2024, record, MorningStart, MorningEnd);
  }
}
