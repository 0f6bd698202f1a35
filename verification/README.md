# qio-cli office-hours schedule, modelled in Dafny

`qio-cli` is a command-line client for a course's office-hours queue. Its schedule builder
turns the events of a calendar into a week of office hours. It keeps the events that are
not cancelled and whose summary contains `Office Hours`. It parses each kept event's start
and end with `strptime("%Y-%m-%dT%H:%M:%S%z")`. Then it opens half-hour slots in a grid of
7 days (Sunday first) by 48 slots and returns the grid as seven strings of `'o'` (open)
and `'c'` (closed). The package (`qiocli/utils.py`) and the script (`main.py`) each define
their own copy of the builder and of the half-hour helper.

The model has these parts:

- `results.dfy` (`Results`): the `Option` and `Result` types used for failures.
- `civil_time.dfy` (`CivilTime`): proleptic-Gregorian dates the way Python's `datetime` has
  them. It covers which dates exist, `toordinal()`, and `weekday()`.
- `timestamp.dfy` (`Timestamp`): `strptime` for this one format.
  - It interprets the directive list `%Y - %m - %d T %H : %M : %S %z` over the text: field
    widths, the case-insensitive `T`, the space-padded day, and every `%z` form (`Z`,
    `±HH:MM`, `±HHMM`, seconds, fraction). A colon must be used consistently.
  - Then it applies the checks of the `date`, `datetime` and `timezone` constructors.
  - `Format` writes the RFC 3339 layout that calendars send. The round trip
    `Parse(Format(t))` is proved for every `t` that `Format` can write, whether its fields
    are in range or not.
- `schedule.dfy` (`Schedule`):
  - the filter (`OfficeHours`);
  - the parsing comprehension (`ParseSessions`);
  - the two index helpers;
  - the declarative schedule (`Week`: a slot is open iff some session covers it) and what
    the builder returns (`ScheduleOf`);
  - the builder itself as imperative code (`FormSchedule`, `MarkSessions` over a 7×48
    `array2<char>`), proved against `ScheduleOf`.
- `schedule_properties.dfy` (`ScheduleProperties`):
  - the loop's slice assignment as a left fold (`SliceAssign`, `Mark`, `MarkAll`), proved
    equal to `Week`;
  - which events matter and which slots can open;
  - a worked example.
- `legacy_main.dfy` (`LegacyMain`): the script's duplicate helper and builder, proved to
  agree with the package's on every input.

The UTC offset of a timestamp is parsed and range-checked but never applied. Slots and
days come from the wall-clock time and date as written, exactly as in the source.

## Model

| member | source | states |
|---|---|---|
| `Schedule.HalfHourIdx` | qiocli/utils.py:5-7 | the index lies in [0, 47], and the half hour `[30i, 30i+30)` minutes after midnight contains the time's `60*hour + minute` |
| `Schedule.Contains` | qiocli/utils.py:27-28 | `pattern in text` holds iff the pattern occurs contiguously, case-sensitively, at some index of the text |
| `Schedule.IsOfficeHours` | qiocli/utils.py:27-28 | an event qualifies iff its status is not `cancelled` and `Office Hours` occurs somewhere in its summary |
| `ScheduleProperties.CourseSummaryQualifies` | qiocli/utils.py:27-28 | `'Office Hours' in 'CS101 Office Hours'` holds: the phrase need not begin the summary |
| `Schedule.OfficeHours` | qiocli/utils.py:26-29 | an event is kept iff it is in the input, its status is not `cancelled` and its summary contains `Office Hours` |
| `ScheduleProperties.OfficeHoursAppend` | qiocli/utils.py:26-29 | filtering a concatenation is concatenating the filtered parts, so the kept events stay in their input order |
| `ScheduleProperties.OfficeHoursCounts` | qiocli/utils.py:26-29 | each qualifying event is kept as many times as it occurs, and every other event is dropped |
| `Schedule.ParseSessions` | qiocli/utils.py:30-37 | the comprehension succeeds iff both timestamps of every event parse; it then gives one session per event, in order, holding the parsed start and end |
| `Schedule.SessionOf` | qiocli/utils.py:31-36 | the session of a readable event keeps its summary and holds exactly what its start and end texts parse to |
| `Schedule.FirstError` | qiocli/utils.py:33-36 | the error for an event that does not parse names its start text when the start fails, and its end text otherwise: the start is parsed first |
| `Schedule.ParseSessionsError` | qiocli/utils.py:30-37 | on failure the error is the first failing timestamp of the first event that does not parse (start before end); every earlier event parses |
| `Timestamp.Parse` | qiocli/utils.py:33-36 | an accepted timestamp is a valid `datetime`: the date exists in years 1-9999, the time of day is in range, and the offset is under 24 hours; a rejection carries the rejected text |
| `Timestamp.Fields` | qiocli/utils.py:33-36 | the regular-expression stage only yields four-digit years, months 1-12, days 1-31, hours 0-23, minutes 0-59, seconds 0-61 and offsets under 100 hours; which texts it accepts is pinned down only by `FieldsOfFormat`, on `Format`'s layout |
| `Timestamp.Match` | qiocli/utils.py:33-36 | matching the rest of the pattern keeps every field within the pattern's bounds; as for `Fields`, no contract says which texts match, beyond `FieldsOfFormat` |
| `Timestamp.ParseOffset` | qiocli/utils.py:33-36 | an accepted `%z` is an offset below 100 hours in magnitude, in microseconds |
| `Timestamp.OffsetSeconds` | qiocli/utils.py:33-36 | the optional seconds of `%z` are below 60 and its fraction is below one second |
| `Timestamp.ParseFormat` | qiocli/utils.py:33-36 | parsing the RFC 3339 text of any date-time gives that date-time back when every field is in range, and fails on the text otherwise (month 13, 31 June, 29 February of a common year, hour 24, second 60, a 24-hour offset) |
| `Timestamp.FieldsOfFormat` | qiocli/utils.py:33-36 | the pattern stage alone accepts the text of a date-time iff month, day, hour, minute and second lie in the ranges the pattern admits, and then it recovers every field |
| `Timestamp.ParseOffsetText` | qiocli/utils.py:33-36 | `%z` reads back exactly the whole-minute offset written as `±HH:MM` |
| `CivilTime.DaysInMonth` | qiocli/utils.py:33-36 | months have 28 to 31 days, and a month has 29 days iff it is February of a leap year |
| `CivilTime.Ordinal` | qiocli/utils.py:43 | `toordinal()` of a date in years 1-9999 lies in [1, 3652059]; `FirstOrdinal` and `OrdinalOfNextDay` fix it as the day count from 0001-01-01 |
| `CivilTime.Weekday` | qiocli/utils.py:43 | the weekday lies in [0, 6] |
| `CivilTime.OrdinalOfNextDay` | qiocli/utils.py:43 | consecutive calendar days have consecutive ordinals, across month and year ends |
| `CivilTime.WeekdayOfNextDay` | qiocli/utils.py:43 | the weekday of the next day is the current weekday plus one, modulo 7 |
| `CivilTime.DaysBeforeNextYear` | qiocli/utils.py:43 | the days before year `y+1` are the days before year `y` plus the length of year `y` |
| `CivilTime.FirstOrdinal` | qiocli/utils.py:43 | 0001-01-01 is a valid date with ordinal 1 |
| `CivilTime.FirstDayIsMonday` | qiocli/utils.py:43 | the date with ordinal 1 is a Monday (weekday 0) |
| `CivilTime.WeekdayOf` | qiocli/utils.py:43 | a date whose ordinal plus six is `7*weeks + w`, with `0 <= w < 7`, has weekday `w` |
| `Schedule.DayIndex` | qiocli/utils.py:42-43 | the row lies in [0, 6], and the start's weekday is the row plus six modulo 7: Monday is row 1 and Sunday is row 0 |
| `ScheduleProperties.DayOfNextDate` | qiocli/utils.py:42-43 | a session starting one calendar day later lands in the next row, cyclically |
| `Schedule.Week` | qiocli/utils.py:38-45 | the schedule has 7 rows of 48 slots, each `'o'` or `'c'` |
| `Schedule.ScheduleOf` | qiocli/utils.py:23-45 | a built schedule has 7 rows of 48 `'o'`/`'c'` slots; the builder fails iff some qualifying event has a timestamp that does not parse |
| `Schedule.FormSchedule` | qiocli/utils.py:23-45 | the builder returns exactly `ScheduleOf(events)`: the same grid or the same error |
| `Schedule.MarkSessions` | qiocli/utils.py:38-45 | the grid filled by slice assignments over the array and then joined is the declarative `Week`: a slot is open iff some session covers it |
| `Schedule.JoinRows` | qiocli/utils.py:45 | joining gives one string per grid row, character for character |
| `Schedule.OpenAfterOneMore` | qiocli/utils.py:39-44 | after one more session, a slot is open iff it was open before or the new session covers it |
| `ScheduleProperties.SliceAssign` | qiocli/utils.py:44 | slice assignment keeps the row length, opens exactly the slots in `[start, end)` and keeps the others; when `end <= start` it changes nothing |
| `ScheduleProperties.Mark` | qiocli/utils.py:40-44 | one pass of the loop opens exactly the slots the session covers and keeps every other slot |
| `ScheduleProperties.MarkAll` | qiocli/utils.py:39-44 | the loop's result is a 7×48 schedule of `'o'`/`'c'` |
| `ScheduleProperties.MarkAllIsWeek` | qiocli/utils.py:38-44 | the loop, started from the all-`'c'` grid, builds exactly the declarative schedule `Week` |
| `ScheduleProperties.WeekSnoc` | qiocli/utils.py:39-44 | the schedule of the sessions plus one more is the earlier schedule marked with that one |
| `ScheduleProperties.AllClosed` | qiocli/utils.py:38 | the initial grid has 7 rows of 48 slots, every one `'c'` |
| `ScheduleProperties.EmptyWeek` | qiocli/utils.py:38 | the schedule of no sessions is the all-`'c'` grid |
| `ScheduleProperties.SameOpenSlots` | qiocli/utils.py:38-45 | two 7×48 schedules that open the same slots are equal |
| `ScheduleProperties.EmptyRangeChangesNothing` | qiocli/utils.py:40-44 | a session whose end index is not after its start index leaves the grid unchanged |
| `ScheduleProperties.MidnightEndChangesNothing` | qiocli/utils.py:40-44 | a session ending between 00:00 and 00:29 adds nothing to the schedule, whatever its start |
| `ScheduleProperties.MarkIdempotent` | qiocli/utils.py:44 | marking the same session twice is marking it once |
| `ScheduleProperties.MarkCommutes` | qiocli/utils.py:39-44 | marking two sessions in either order gives the same grid |
| `ScheduleProperties.EndDateIgnored` | qiocli/utils.py:41-43 | two sessions with the same start and the same end time of day give the same schedule, whatever the end's date, seconds or offset |
| `ScheduleProperties.LastSlotNeverOpens` | qiocli/utils.py:41-44 | slot 47 (23:30 to midnight) is `'c'` on every day of every built schedule |
| `ScheduleProperties.IgnoredEvent` | qiocli/utils.py:26-29 | inserting a non-qualifying event anywhere changes neither the grid nor the error |
| `ScheduleProperties.IgnoredEventFiltered` | qiocli/utils.py:26-29 | inserting a non-qualifying event anywhere leaves the filtered list unchanged |
| `ScheduleProperties.SameQualifyingSameSchedule` | qiocli/utils.py:29-45 | inputs with the same filtered list give the same grid or error |
| `ScheduleProperties.NoneQualify` | qiocli/utils.py:26-29 | when no event qualifies the filtered list is empty |
| `ScheduleProperties.NoOfficeHoursAllClosed` | qiocli/utils.py:26-45 | when no event qualifies the result is 7 rows of 48 `'c'` |
| `ScheduleProperties.BuiltSchedule` | qiocli/utils.py:30-45 | a built schedule is the declarative `Week` of the parsed qualifying events |
| `ScheduleProperties.ScheduleByEvents` | qiocli/utils.py:26-45 | in a built schedule a slot is `'o'` iff some event of the input qualifies, parses, and covers that slot of that day |
| `ScheduleProperties.OpenByEvents` | qiocli/utils.py:30-44 | a slot is covered by a parsed session iff some qualifying, parsing input event covers it |
| `ScheduleProperties.SessionOfParsed` | qiocli/utils.py:30-37 | the k-th parsed session is the session of the k-th event of the parsed list |
| `ScheduleProperties.EventOpens` | qiocli/utils.py:39-44 | an event of the parsed list whose session covers a slot makes that slot open |
| `ScheduleProperties.FailsByEvents` | qiocli/utils.py:30-37 | the builder fails iff some input event qualifies and has a timestamp that does not parse |
| `ScheduleProperties.SameEventsSameSchedule` | qiocli/utils.py:39-44 | inputs with the same events, in any order and with any repetition, both fail or both give the same grid |
| `ScheduleProperties.PermutedEventsSameSchedule` | qiocli/utils.py:39-44 | permuting the events does not change whether the builder fails, nor the grid |
| `ScheduleProperties.RepeatedEventSameSchedule` | qiocli/utils.py:26-45 | an event repeated right after itself changes nothing: the same grid, or the same error |
| `ScheduleProperties.RepeatedQualifyingEvent` | qiocli/utils.py:26-45 | the same for a qualifying event, which reaches the comprehension twice |
| `ScheduleProperties.RepeatedFiltered` | qiocli/utils.py:26-29 | a qualifying event repeated in place is kept twice, in place, between the kept events before and after it |
| `ScheduleProperties.FilteredAround` | qiocli/utils.py:26-29 | a qualifying event is kept in place, between the kept events before and after it |
| `ScheduleProperties.ParseSessionsRepeated` | qiocli/utils.py:30-37 | when the comprehension fails, parsing an event twice in a row fails with the same error as parsing it once |
| `ScheduleProperties.SameFailureSameSchedule` | qiocli/utils.py:30-38 | two inputs whose comprehensions fail with the same error make the builder raise that error for both, before any grid exists |
| `ScheduleProperties.SeventhOfJanuary2024` | qiocli/utils.py:43 | 2024-01-07 is a valid date and a Sunday (weekday 6) |
| `ScheduleProperties.SundayAfternoon` | qiocli/utils.py:23-45 | a confirmed `CS101 Office Hours` event from `2024-01-07T14:00:00+00:00` to `2024-01-07T15:30:00+00:00` opens exactly slots 28, 29 and 30 of row 0 (Sunday) |
| `ScheduleProperties.SundayAfternoonParses` | qiocli/utils.py:26-37 | that event qualifies, and its two texts parse to 14:00 and 15:30 on 2024-01-07 with a zero offset |
| `ScheduleProperties.SundayAfternoonCovers` | qiocli/utils.py:40-43 | a session starting 14:00 on 2024-01-07 and ending 15:30 covers exactly slots 28 to 30 of row 0 |
| `LegacyMain.HalfHourIdx` | main.py:29-30 | the script's index lies in [0, 47], contains the time's minute of the day in its half hour, and equals the package's on every timestamp |
| `LegacyMain.FormSchedule` | main.py:33-50 | the script's builder returns exactly what the package's returns, the same grid or the same error, on every input |
| `LegacyMain.MarkSessions` | main.py:43-50 | the script's grid loop and join build exactly the declarative `Week` |

## Left out

- HTTP calls, the command-line interface and JSON decoding are not modelled. An event is
  a record whose summary, status, `start.dateTime` and `end.dateTime` are always strings.
  So the `KeyError` raised for an all-day event, which has `start.date` instead of
  `start.dateTime`, is not modelled.
- `form_gcal_office_hours_search` reads the wall clock and only builds a query; it is not
  part of this model.
- The regular expressions of `strptime` use `\d`, which also matches non-ASCII decimal
  digits. The model accepts ASCII digits only.
- Only the rejected text is modelled for a failure. The exception type and message are
  not: depending on the field, Python raises `ValueError` or, for a lowercase `z` in
  place of `%z`'s `Z`, `IndexError`.
- `Timestamp.Match` interprets only formats in which each one- or two-character field is
  followed by a literal or by `%z`, and `%z` comes last. The builder's one format is of
  this kind.
- `Timestamp.ParseFormat`: states the round trip only for text that `Format` can write,
  that is four-digit years and whole-minute offsets of `±HH:MM`. The other accepted
  spellings (`Z`, `±HHMM`, seconds and fractions in `%z`, one-digit fields, a
  space-padded day) are part of `Parse` but have no round-trip lemma.
- `ScheduleProperties.SameEventsSameSchedule`: when both inputs fail, the two errors may
  name different timestamps. The source also reports the first failing timestamp in
  input order.
