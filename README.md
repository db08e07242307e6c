# Sentral calendar script, modelled in Dafny

`cal.py` scrapes a school's Sentral web calendar and writes it out as one iCalendar feed.
This project models the logic between the scraped text and the feed:

- **Calendar-name lookup** (`cal_names_to_ids`): display names are looked up in the fixed
  registry `CALS`, ignoring case. The result is a set, and an unknown name becomes `None`.
- **Event fragments** (`process_event`): the text fragments of one event node become a
  record. The record holds `time` and `event` when there are at least two fragments,
  `event` alone when there is one, and an IndexError when there are none.
- **Record flattening** (the loop of `get_events`): the day cells of one calendar page
  become records, each labelled with its cell's day. No-break spaces in the label become
  spaces. Records keep cell order, then node order within a cell.
- **Time ranges** (`parse_duration`): the text is split on `" - "`, and each fragment is
  parsed with `strptime`, first as `%I:%M%p` and then as `%I%p`.
- **Event normalisation** (`as_ical_event`), in four parts:
  - the MD5 input (title, day label, decimal year, and the time text when there is one)
    and the uid built from it;
  - the constant sequence number;
  - the `%b %d` day label resolved into the requested year;
  - the choice between the timed branch and the all-day branch.
- **Time zone** (`generate_vtimezone`): the zone's transitions in the current and next
  year are paired into a DAYLIGHT and a STANDARD sub-component.
- **Feed assembly** (`make_cal`): the fixed calendar properties, then the zone, then the
  events in the given order.

The modules follow the script's structure:

| module | part of the script |
|---|---|
| `Common` | shared types: `Option`, `Result`, and the Python exceptions as `Error` |
| `Chars` | character classes: ASCII digits, Python's `\s`, ASCII case, casefolding |
| `Civil` | proleptic Gregorian dates and `datetime + timedelta` |
| `Registry` | `CALS` and `cal_names_to_ids` |
| `Strptime` | the `%I:%M%p`, `%I%p` and `%b %d` grammars |
| `Duration` | `str.split` and `parse_duration` |
| `Identity` | UTF-8, `str(int)`, the uuid text and the uid |
| `Extract` | `process_event` and the flattening loop of `get_events` |
| `Normalize` | `as_ical_event` |
| `TimeZone` | `generate_vtimezone`, as written and corrected |
| `Feed` | `make_cal` |

Outside inputs become parameters:

- MD5 is a function parameter `md5: seq<byte> -> Digest` that yields 16 bytes.
- The zone's transition table is a sequence of `Transition` values.
- The current year is an integer.
- The page's day cells are a sequence of (raw label, fragment lists) pairs.

`parse_duration` and the `get_events` loop change local state step by step, so they are
methods with loops: `Duration.ParseDuration`, and `Extract.GetEvents` with
`Extract.LabelAndAppend`. `make_cal` is the method `Feed.MakeCal`, whose loop is `Feed.WithEvents`. Each method is proved
against a function (`ParseAll`, `Concat` of `CellEntries`, `Events`), and lemmas state the
script's promises about those functions. `Feed.MakeCal` builds the feed as the script does,
with the as-written zone; `Feed.MakeCalCorrected` builds it with the corrected zone.

The strptime directives are scanned deterministically:

- `%I` is `1[0-2]|0[1-9]|[1-9]`.
- `%M` is `[0-5]\d|\d`.
- `%p` is `am|pm`, ignoring case.
- `%b` is a C-locale month abbreviation, ignoring case.
- `%d` is `3[01]|[12]\d|0[1-9]|[1-9]| [1-9]`.
- A space in the format is `\s+`.
- The whole text must be consumed.

The token after a numeric directive never starts with a digit. So backtracking into a
shorter alternative can never let a match succeed, and the scan accepts exactly the strings
the regular expressions accept.

## Model

| member | source | states |
|---|---|---|
| `Chars.FoldString` | cal.py:40 | casefolding keeps the length and maps position by position: 'A'..'Z' to 'a'..'z', long s (U+017F) to 's', the Kelvin sign (U+212A) to 'k', every other character to itself |
| `Chars.FoldIgnoresCase` | cal.py:40 | two names that differ only in the case of ASCII letters casefold alike, so the lookup ignores case |
| `Registry.FirstMatch` | cal.py:35-42 | the search loop returns None exactly when no entry's name casefolds like the name; otherwise it returns the id of an entry whose name matches |
| `Registry.CalToId` | cal.py:35-42 | `cal2id`: None exactly when no `CALS` name casefolds like the name; otherwise the id of an entry whose name does |
| `Registry.CalNamesToIds` | cal.py:44 | the result holds the lookup of every given name, and nothing that is not the lookup of a given name |
| `Registry.RegistryNamesDistinct` | cal.py:18-28 | no two names in `CALS` casefold alike |
| `Registry.CalToIdCorrect` | cal.py:35-44 | a name resolves to id k if and only if `CALS` lists k under a name that casefolds like it |
| `Registry.DisplayNameResolves` | cal.py:39-41 | every registry name, in any case, resolves to its own id |
| `Registry.FoldedNamesAgree` | cal.py:40 | two names that casefold alike resolve alike, whatever the entries |
| `Registry.UnknownNameGivesNone` | cal.py:42-44 | a name that matches no entry leaves None in the result set |
| `Registry.SameIdCollapses` | cal.py:44 | names that all resolve alike give a set with that one lookup: the set drops repeats |
| `Registry.CaseVariantsCollapse` | cal.py:39-44 | any non-empty list of names that all casefold like one registry name gives the set holding only that entry's id |
| `Registry.YrTenCollapses` | cal.py:44 | "Yr 10" and "yr 10" give the single id {63} |
| `Extract.ProcessEvent` | cal.py:46-53 | no fragments gives IndexError; one fragment gives only `event`; two or more give `time` = first and `event` = second; no other keys |
| `Extract.LaterFragmentsIgnored` | cal.py:51-52 | fragments after the second do not change the record |
| `Extract.ReplaceNbsp` | cal.py:120 | each no-break space becomes a space, every other character stays, and the length is kept |
| `Extract.ReplaceNbspClears` | cal.py:120 | the result holds no no-break space, replacing twice equals replacing once, and a label without one is unchanged |
| `Extract.EntryKeepsDay` | cal.py:127-128 | the labelled record's keys are `day` plus the event's keys; `day` is the cell's label, never overwritten; the event's values are kept |
| `Extract.ProcessCell` | cal.py:123 | one cell's records, one per event node in order; IndexError exactly when some node has no text |
| `Extract.ProcessCells` | cal.py:122-123 | all cells' records, one list per cell; IndexError exactly when some node of some cell has no text |
| `Extract.Entry` | cal.py:127-128 | `dict(day=...)` then `update(event)`: the keys are `day` plus the event's keys, every value of the event is kept, and `day` is the label unless the event has its own |
| `Extract.Labelled` | cal.py:125-128 | record j of a cell's list has the keys `day` plus those of event j, keeps event j's values, and has the cell's day when event j has no `day` of its own |
| `Extract.CellEntries` | cal.py:120-128 | the labelled lists exist exactly when every node of every cell has text |
| `Extract.FlattenOrder` | cal.py:125-129 | position Offset(i) + j of the output is node j of cell i, processed and labelled with cell i's cleaned day: cell order first, then node order |
| `Extract.EveryRecordHasItsDay` | cal.py:120-129 | every output record has a `day` equal to its cell's cleaned label, with no no-break space |
| `Extract.GetEvents` | cal.py:107-130 | IndexError exactly when some node has no text; otherwise the output is the cells' labelled lists concatenated in order |
| `Extract.LabelAndAppend` | cal.py:125-129 | the nested loop appends exactly the concatenation of the labelled lists |
| `Extract.ConcatAt` | cal.py:125-129 | element j of list i sits at the total length of lists before i plus j |
| `Duration.Split` | cal.py:59 | `str.split` always yields at least one piece |
| `Duration.JoinSplit` | cal.py:59 | joining the pieces with the separator gives back the original text |
| `Duration.SplitPiecesAvoidSeparator` | cal.py:59 | no piece contains the separator |
| `Duration.SplitAtFirst` | cal.py:59 | the first piece is the text before the first occurrence, and the rest is the split of what follows it |
| `Duration.SplitWithoutSeparator` | cal.py:59 | text without the separator splits into itself alone |
| `Duration.SplitTimeRange` | cal.py:59 | two space-free times joined by " - " split back into exactly those two |
| `Duration.SplitInTwo` | cal.py:59 | text that splits into two pieces is the first piece, the separator, then the second |
| `Duration.ParseAll` | cal.py:62-73 | one time per fragment in order, each the fragment's parse; otherwise the error names the first fragment that parses under neither format |
| `Duration.ParseAllFirstFailure` | cal.py:62-72 | when fragment i is the first that parses under neither format, the error names fragment i |
| `Duration.ParseAllSuccess` | cal.py:62-73 | when every fragment parses, the result is exactly their times, in order |
| `Duration.TryFormats` | cal.py:63-70 | the inner loop tries `%I:%M%p`, then `%I%p`, stopping at the first success; it returns the fragment's parse, or None when both formats fail |
| `Duration.ParseDuration` | cal.py:55-74 | the loops over fragments and formats return the times of ParseAll of the split text, or its error |
| `Strptime.MatchHour12` | cal.py:66 | `%I` reads an hour from 1 to 12 |
| `Strptime.MatchMinute` | cal.py:66 | `%M` reads a minute from 0 to 59 |
| `Strptime.MatchAmPm` | cal.py:66 | `%p` reads "am" or "pm" in any ASCII case from the first two characters, and nothing else; true for pm |
| `Strptime.StrptimeTime` | cal.py:66 | a successful parse is a valid time of day, and `%I%p` always gives minute 0 |
| `Strptime.FirstParse` | cal.py:61-70 | None exactly when every format fails; otherwise the result of the first format that succeeds, with all earlier formats failing |
| `Strptime.ParseFragmentTriesInOrder` | cal.py:61-70 | a fragment that parses under `%I:%M%p` takes that time; otherwise it takes what `%I%p` gives, None when that fails too |
| `Strptime.To24Clock` | cal.py:66 | 12am is hour 0, 12pm is hour 12, other pm hours add 12, other am hours stay, and pm means an hour of 12 or more |
| `Strptime.To24Bijective` | cal.py:66 | distinct 12-hour readings give distinct hours of the day |
| `Strptime.SpellingParses` | cal.py:61-70 | every accepted spelling parses to the time it spells: hour with or without zero padding, minute in one or two digits or absent, am/pm in any case |
| `Strptime.MinuteSpellingParses` | cal.py:66 | a spelling with a minute parses under `%I:%M%p` to the time it spells |
| `Strptime.HourSpellingParses` | cal.py:64-66 | a spelling without a minute fails `%I:%M%p` and parses under `%I%p` to the time it spells |
| `Strptime.ParsedFragmentIsSpelled` | cal.py:61-72 | conversely, every fragment that parses is such a spelling, and parses to the time it spells |
| `Strptime.MinuteFormatSpelled` | cal.py:66 | every text `%I:%M%p` accepts is an accepted spelling, parsed to the time it spells |
| `Strptime.HourFormatSpelled` | cal.py:66 | every text `%I%p` accepts is an accepted spelling without a minute, parsed to the time it spells |
| `Strptime.SpellingHasNoSpace` | cal.py:59 | an accepted spelling contains no space, so it cannot hold the separator |
| `Strptime.MatchMonth` | cal.py:94 | `%b` reads a month from 1 to 12 from exactly three characters; `MonthSpellingMatches` and `MatchedMonthIsSpelled` pin down which three |
| `Strptime.SkipSpaces` | cal.py:94 | the `\s+` run drops a prefix made only of whitespace, and what is left is empty or starts with a non-space |
| `Strptime.MatchDay` | cal.py:94 | `%d` reads a day from 1 to 31; `DaySpellingMatches` and `MatchedDayIsSpelled` pin down which texts |
| `Strptime.ParseDayLabel` | cal.py:94 | an accepted label names a valid date of 1900 |
| `Strptime.ResolveDay` | cal.py:94 | Ok exactly when the label parses and the year is in 1..9999, giving that month and day in that year; an unparsable label is a ValueError naming it, and a parsable one in a year outside 1..9999 is a ValueError naming the year |
| `Strptime.ParseDayLabelFrom` | cal.py:94 | a label read as a month, a run of spaces and a day is accepted exactly when that day exists in that month of 1900 |
| `Strptime.MonthLabelMatches` | cal.py:94 | each strftime month abbreviation reads back as its month |
| `Strptime.MonthSpellingMatches` | cal.py:94 | `%b` accepts the abbreviation of every month with each of its three letters in either case, and leaves the rest of the text alone |
| `Strptime.MatchedMonthIsSpelled` | cal.py:94 | conversely, the three characters `%b` accepts are the abbreviation of the month it yields, each letter in one case or the other |
| `Strptime.DaySpellingMatches` | cal.py:94 | `%d` reads every day 1..31 written with two digits, or for days below 10 with one digit, and consumes all of it |
| `Strptime.MatchedDayIsSpelled` | cal.py:94 | conversely, a text `%d` reads to its end is one of those spellings of the day it yields |
| `Strptime.LabelSpellingParses` | cal.py:94 | a label spelt as a month abbreviation in any case, a non-empty whitespace run and a day is accepted exactly when that day exists in that month of 1900, and gives that month and day |
| `Strptime.ParsedLabelIsSpelled` | cal.py:94 | conversely, every label `%b %d` accepts is such a spelling of the month and day it yields |
| `Strptime.DayLabelRoundTrip` | cal.py:94 | the label strftime("%b %d") writes for a date of 1900 parses back to that month and day |
| `Strptime.Feb29Rejected` | cal.py:94 | "Feb 29" is rejected in every year, because 1900 is not a leap year |
| `Civil.AddDaysInverse` | cal.py:149 | moving n days forward and then n days back returns to the same date |
| `Civil.YearLength` | cal.py:149 | the day count of a year is 366 for a leap year and 365 otherwise, in the proleptic Gregorian calendar |
| `Civil.NextDayOrdinal` | cal.py:149 | the day after a date has the next `toordinal()` day number |
| `Civil.AddDaysOrdinal` | cal.py:149 | `AddDays` (`date + timedelta(days=n)`) gives the date whose day number is n more |
| `Civil.AddMinutes` | cal.py:149-151 | `datetime + timedelta`: the whole days of the shifted minute count are added to the date and the rest gives the time of day; OverflowError (None) exactly when that date leaves years 1..9999 |
| `Civil.AddMinutesOrdinal` | cal.py:149-151 | the result lies exactly k minutes after the start, counting minutes from the first day of the proleptic calendar |
| `Civil.AddMinutesInverse` | cal.py:149-151 | adding k minutes and then -k minutes gives back the starting date-time |
| `Identity.EncodeChar` | cal.py:81 | each character encodes to one to four bytes |
| `Identity.DecodeUtf8` | cal.py:81-85 | decoding `Utf8` of a text (`str.encode('utf-8')`) gives the text back |
| `Identity.Utf8Injective` | cal.py:81-85 | two texts have the same encoding if and only if they are equal |
| `Identity.Utf8Append` | cal.py:81-85 | encoding a concatenation equals concatenating the encodings, as successive hasher updates do |
| `Identity.DecimalRoundTrip` | cal.py:83 | `DecimalString(year)`, the model of str(year), is digits with an optional leading minus, reads back as the year, and has no superfluous leading zero |
| `Identity.Hex` | cal.py:87 | two hex digits per byte |
| `Identity.HexRoundTrip` | cal.py:87 | reading the hex digits back gives the bytes |
| `Identity.Hyphenate` | cal.py:87 | the 8-4-4-4-12 form of 32 hex digits is 36 characters long |
| `Identity.HyphensPlaced` | cal.py:87 | the hyphens sit at 8, 13, 18 and 23, and removing them gives the hex digits back |
| `Identity.UuidString` | cal.py:87 | the uuid text is 36 characters long |
| `Identity.UuidRoundTrip` | cal.py:87 | the uuid text reads back as the 16 digest bytes |
| `Identity.Uid` | cal.py:87-91 | the uid is the uuid text of the digest, which reads back as the digest, followed by `@ralismark.github.io` |
| `Normalize.HashInput` | cal.py:80-85 | the bytes fed to MD5 by the successive updates are the UTF-8 encoding of title, label, decimal year and time text (when present) run together |
| `Normalize.HashInputEncodesFields` | cal.py:80-85 | the hash input decodes back to that text, so it determines the fields run together |
| `Normalize.EventTiming` | cal.py:95-103 | without a time text the event is all-day; with one it is Ok exactly when every fragment parses and there are exactly two, and then it is timed. Otherwise the error is the ValueError naming the first fragment that does not parse, or else the unpacking error for the number of fragments |
| `Normalize.AsICalEvent` | cal.py:76-105 | KeyError for a missing `event`, then a missing `day`. Otherwise Ok exactly when the day resolves and, for a timed record, every fragment parses into exactly two times. Summary is the title, sequence is "1", uid is built from the hash input. The event is timed exactly when the record has `time`. A day that does not resolve fails with `ResolveDay`'s error, and a time text that does not split into two times fails with `EventTiming`'s error |
| `Normalize.AllDayEvent` | cal.py:101-103 | an all-day event has dtstart = dtend = midnight of the label's day in the requested year |
| `Normalize.TimedEvent` | cal.py:95-100 | a timed event's text is two parsable fragments joined by " - ". It starts on the label's day at the first time and lasts end minus start, which is negative rather than wrapped when the end is earlier |
| `Normalize.TimingFromParts` | cal.py:96-100 | two parsed times give a start at the first time on the resolved day and a duration of the second minus the first, in minutes |
| `Normalize.TimedFromParts` | cal.py:94-100 | a record whose day resolves and whose time text parses into two times converts to the timed event they give |
| `Normalize.SpelledRangeTimes` | cal.py:59-73 | two accepted spellings joined by " - " parse back into the two times they spell |
| `Normalize.SpelledRangeEvent` | cal.py:95-100 | conversely, any two accepted spellings joined by " - " on a resolvable day give a timed event at the first time, lasting until the second |
| `Normalize.MarchThird` | cal.py:94 | "Mar 03" resolves to 3 March 2024 |
| `Normalize.MorningEvent` | cal.py:94-100 | "9:00am - 10:30am" on "Mar 03" in 2024 starts at 2024-03-03 09:00 and lasts 90 minutes |
| `TimeZone.Window` | cal.py:141-142 | the kept transitions are exactly those of the table whose UTC year is the current year or the next |
| `TimeZone.WindowAppend` | cal.py:141-142 | filtering keeps table order: the window of two parts is the two windows in order |
| `TimeZone.WindowKeepsAll` | cal.py:141-142 | the window is the whole table exactly when every transition falls in it |
| `TimeZone.WindowAround` | cal.py:141-142 | parts with no transition in the window can be dropped from either end |
| `TimeZone.Block` | cal.py:144-164 | a sub-component goes from the other block's offset to its transition's offset and carries that transition's name. Its dtstart is its first rdate, and both rdates read back as the transitions' UTC instants. OverflowError exactly when a shift leaves the supported years |
| `TimeZone.Assemble` | cal.py:144-166 | DAYLIGHT is built from dst1 in std1's offset and STANDARD from std1 in dst1's offset; OverflowError when either fails |
| `TimeZone.GenerateVTimezoneAsWritten` | cal.py:132-168 | no zone exactly when the id is empty; an unpacking error unless exactly four transitions fall in the window; with four, the zone is built exactly when the four assemble in table order, and the only other outcome is an OverflowError; the two blocks mirror each other's offsets |
| `TimeZone.PairRoles` | cal.py:141 | the four roles are a permutation of the window, in table order when the window opens with a daylight onset |
| `TimeZone.GenerateVTimezone` | cal.py:132-168 | as GenerateVTimezoneAsWritten, with each transition in the block of its own kind: with four transitions in the window the zone is built exactly when they assemble in their paired roles, and otherwise the error is an OverflowError |
| `TimeZone.AssembledDescribes` | cal.py:144-164 | the assembled DAYLIGHT block describes dst1 and STANDARD describes std1: target offset, name, and a start that reads back as the UTC instant |
| `TimeZone.AsWrittenBuilt` | cal.py:141-166 | with an id and four transitions in the window, the as-written zone is built exactly when each of the four local shifts stays within years 1..9999, and fails only with an OverflowError |
| `TimeZone.CorrectedBuilt` | cal.py:141-166 | the same for the corrected zone, with the shifts of the paired roles |
| `TimeZone.AsWrittenAssembles` | cal.py:141-166 | a zone built as written is the window's four transitions assembled in table order |
| `TimeZone.CorrectedAssembles` | cal.py:141-166 | a corrected zone is the window's four transitions assembled in their paired roles |
| `TimeZone.BlocksMatchTheirKind` | cal.py:144-164 | for an alternating window, the corrected DAYLIGHT block describes a change into daylight time and STANDARD a change back to standard time |
| `TimeZone.AsWrittenSwapsKinds` | cal.py:141-164 | as written, a window that opens with a return to standard time puts that change in the DAYLIGHT block and the daylight onset in STANDARD |
| `TimeZone.AgreesWhenDaylightFirst` | cal.py:141 | when the window opens with a daylight onset, the corrected version builds what the script builds |
| `TimeZone.SydneyWindow` | cal.py:141-142 | Sydney's 2024 window drops the 2023 and 2026 changes |
| `TimeZone.SydneyAsWritten` | cal.py:141-164 | as written, Sydney's DAYLIGHT block is AEST at +10:00 and its STANDARD block is AEDT |
| `TimeZone.SydneyCorrected` | cal.py:141-164 | corrected, Sydney's DAYLIGHT block is AEDT, from +10:00 to +11:00, starting at 2am local on 6 October 2024 |
| `Feed.Events` | cal.py:181-182 | the events listed are exactly the event components, and no more than there are components |
| `Feed.EventsAppend` | cal.py:181-182 | the events of two runs of components are the first run's events followed by the second's, so order is kept |
| `Feed.EventsOfOne` | cal.py:179-182 | a zone component contributes no event and an event component contributes itself |
| `Feed.WithEvents` | cal.py:174-182 | version "2.0", the product id and calendar name, the zone first, then exactly the given events in order |
| `Feed.MakeCal` | cal.py:170-183 | version "2.0", the script's product id and calendar name, then the zone `generate_vtimezone` builds as written for `Australia/Sydney`, then exactly the given events in order. It fails exactly when that zone cannot be built, with the same error |
| `Feed.MakeCalCorrected` | cal.py:170-183 | the same calendar with the corrected zone in place of the as-written one, failing exactly when the corrected zone cannot be built |

## Left out

- HTTP fetching, the URL format and the commented-out status check: these are network I/O.
- HTML parsing and CSS selection: BeautifulSoup is a foreign library. A page is a sequence
  of (day label, fragment lists) cells. `Extract.GetEvents` models the records of one
  calendar's page.
- The order of calendars in `get_events`: it iterates a Python set, whose order is
  unspecified, so no order across calendars is stated. The term loop of `main` is left out
  with `main`.
- MD5 itself is the parameter `md5`. The hash is only used through its 16-byte digest.
- The time zone attached to the dates:
  - The `LOCALTZ` of the day label and pytz's zone in `datetime.combine` are not modelled.
  - Start times are naive local date-times, and all-day dates are local midnight.
  - pytz's handling of ambiguous and nonexistent local times is left out.
- pytz's private transition tables are an input, at whole-minute resolution. An unknown
  zone id (pytz's UnknownTimeZoneError) is not modelled, because the only id used is the
  constant `Australia/Sydney`.
- `datetime.now()`: the current year is a parameter.
- icalendar's component objects and `to_ical` serialisation. The model records which
  property gets which value, and the order of the components.
- `make_cal` with a `None` zone: TZID is a non-empty constant, so the zone is never None.
- Seconds, microseconds and floating point: every parsed time and transition is in whole
  minutes. The duration is a signed number of minutes, not a timedelta.
- `main` and argparse, including `--year` with `nargs=1` producing a list, the listing of
  calendar names, and the stderr progress messages: these are command-line I/O.
- `Strptime.MatchMinute`: `\d` in Python's regular expressions also matches non-ASCII
  decimal digits. The model reads only ASCII digits, so it rejects such fragments.
- `Strptime.MatchDay`: `%d` compiles to a pattern whose `\d` also matches non-ASCII decimal
  digits, which `int()` then reads, so Python accepts a label such as "Mar 1" followed by an
  Arabic-Indic three. The model reads only ASCII digits and rejects such labels.
- `Chars.FoldString`: casefolding is modelled for ASCII letters, long s and the Kelvin
  sign. That is exact when comparing against the registry's names, which contain no
  letters that casefold to several characters. It is not full Unicode casefolding.
- The C locale is assumed for `%b` and `%p`.
- `Identity.UuidRoundTrip`: only the canonical lower-case form that `str(uuid)` writes is
  read back, not every form the uuid module accepts.

## Findings

| source | as written | input that shows it | evidently intended | confidence | as-written member | corrected member |
|---|---|---|---|---|---|---|
| cal.py:141-164 | The four transitions of the window are taken in table order as (dst1, std1, dst2, std2). The DAYLIGHT block is built from the first of them. | Australia/Sydney in any year. Its first transition in the window is early April's return to AEST (+10:00, dst 0), so the DAYLIGHT block is AEST from +11:00 to +10:00, and the STANDARD block is AEDT. | The DAYLIGHT block describes the onset of AEDT in October and the STANDARD block the return to AEST. With a southern-hemisphere zone, each pair should swap when the window opens with a standard-time transition. | not executed; follows from the transition dates of Australian daylight saving | `TimeZone.AsWrittenSwapsKinds` | `TimeZone.BlocksMatchTheirKind` |

`TimeZone.SydneyAsWritten` and `TimeZone.SydneyCorrected` work the Sydney case out for
2024. `TimeZone.GenerateVTimezone` is the corrected definition. `Feed.MakeCal` keeps the
script's as-written zone, and `Feed.MakeCalCorrected` is the feed with the corrected one.
