# CSV-to-ics in Dafny

A model of the two converters of CSV-to-ics. They turn a spreadsheet of course
meetings into iCalendar events.

- **`csv_flexible_to_ics.py`** (the flexible converter) handles mixed rows.
  - A row with a `date` becomes a single event.
  - Any other row becomes a weekly series. The series has:
    - an optional interval;
    - a COUNT or UNTIL terminator, with a fallback of 30 occurrences;
    - EXDATE exception dates;
    - RDATE extra dates.
  - Column names are matched case-insensitively.
- **`csv_to_ics.py`** (the simple converter) reads every row as one weekly
  meeting. It repeats the meeting for a fixed number of weeks from a term start
  date. Its header check is exact.

The model contains:

- the field normalisers the two files share: the weekday alias table,
  `normalize_weekday`, `parse_hhmm`, `parse_date` and the anchor-date
  computation;
- each converter's event builder, header check and row loop;
- the `str`, `re`, `int()` and `datetime.date` behaviour those rely on.

The alias table, `normalize_weekday` and `parse_hhmm` appear twice in the
source, once per file, with the same text. The anchor computation has the same
logic in both files. It is `_first_date_for_weekday(start_date, …)` in the
flexible converter and `first_date_for_weekday(term_start_date, …)` in the
simple one. Each is defined once here, in `Normalizers`, and used by both
converters.

Files:

- `wrappers.dfy`: `Option` and `Result`, plus `MapUntilFailure`. That method is
  the "process rows in order, the first failure aborts the run" loop both
  converters use.
- `text.dfy`: the `Text` module. It models whitespace as `str.isspace()` sees
  it, and `strip()`, ASCII `lower()`, `re.sub(r"\s+", " ", ·)`,
  `str.split(sep)`, decimal digits and `int()`.
- `gregorian.dfy`: `datetime.date`, with dates held as proleptic ordinals
  (`date.toordinal()`) and the Monday-based `weekday()`.
- `records.dfy`: the weekday codes, times, zoned date-times, the recurrence
  rule, events, the calendar, the errors that end a run, and CSV rows.
- `normalizers.dfy`: the shared normalisers.
- `flexible_converter.dfy`, `simple_converter.dfy`: the two converters.
- `converters_compared.dfy`: how the two header checks relate.
- `scenarios.dfy`: worked examples proved about both converters. They include
  two example rows, one per converter, and the edge cases where the two
  converters differ.

Modelling choices:

- **Rows.** A row is the reader's dictionary, given as its `(key, value)` items
  in order. A later item overrides an earlier one with the same key.
- **Errors.** Python exceptions and `SystemExit` become `Failure` values of
  `Records.Error`.
- **Date overflow.** Adding the weekday offset past 9999-12-31 is an
  `OverflowError` in Python. Here it is `Failure(DateOverflow)`.
- **`date.fromisoformat`.** Its accepted formats depend on the Python version,
  so it is a parameter `iso: string -> Option<Date>`.

Behaviour of the code that the model keeps, although a reader might not
expect it:

- **Unreadable interval.** Only a missing or blank interval is 1. Any other
  interval text that `int()` rejects raises `ValueError` (`IntervalOf`,
  `WordInterval`). An interval of 0 or below is passed on as it is
  (`ZeroInterval`, `NegativeInterval`).
- **Unbounded series.** A series does not always end by a count, an until date
  or the fallback of 30.
  - A non-empty `count` that is not an integer is dropped silently. The end date
    is then not consulted, so the rule has no bound at all (`Terminator`,
    `WordCountIsUnbounded`).
  - The same happens when `count` is empty and `end_date` is not a date.
- **Start before end.** Neither converter checks that an event starts before it
  ends, and the model does not either.
- **Flexible header names.** The header check strips and lower-cases header
  names, but the row keys are only lower-cased. A header ` start` therefore
  passes the check (`PaddedHeaderPassesCheck`).
  - The first row that reaches `row['start']` then fails with `KeyError`, and
    that ends the run (`PaddedHeaderFailsLookup`).
  - A dated row reaches it at once.
  - A series row ends the run earlier if it lacks `weekday` or `start_date` or
    names an unknown weekday.
- **Simple header names.** The simple converter compares header names exactly,
  so `Name` does not satisfy its check for `name` (`CapitalisedHeadersSimple`).
  Every header it accepts also passes the flexible check
  (`SimpleHeaderPassesFlexible`).
- **Impossible `YYYY-M-D` dates.** A text of the `YYYY-M-D` shape that is not a
  real date is an error at once. It is not tried against the later patterns
  (`ParseDateYearFirst`).

## Model

| member | source | states |
|---|---|---|
| MapUntilFailure | csv_flexible_to_ics.py:184-204 | The loop succeeds exactly when every row does. On success it yields one value per row, in row order. Otherwise its error is that of the first failing row, and every earlier row succeeded. |
| Text.Strip | csv_flexible_to_ics.py:41-41 | `strip()` leaves no whitespace at either end and never lengthens the text. |
| Text.Lower | csv_flexible_to_ics.py:28-28 | `lower()` keeps the length, leaves no capital letter, turns each capital into the small letter at the same place in the alphabet, and keeps every other character. |
| Text.StripLower | csv_flexible_to_ics.py:28-28 | Stripping and lower-casing can be done in either order. |
| Text.StripPadding | csv_flexible_to_ics.py:41-41 | Stripping removes exactly the whitespace around a text that has no whitespace at its ends. |
| Text.StripIdempotent | csv_flexible_to_ics.py:114-114 | Stripping an already stripped text changes nothing, so `int()` sees the same text whether or not the caller stripped it first. |
| Text.CollapseSpaces | csv_flexible_to_ics.py:28-28 | `re.sub(r"\s+", " ", t)` is empty only for empty input and keeps the first character's kind. Its only whitespace is the plain space, and no two spaces are adjacent. |
| Text.CollapseNoSpacePrefix | csv_flexible_to_ics.py:28-28 | A whitespace-free prefix passes through the substitution unchanged. |
| Text.CollapseSpaceRun | csv_flexible_to_ics.py:28-28 | A whitespace run before a non-space becomes one space. |
| Text.CollapseLower | csv_flexible_to_ics.py:28-28 | Collapsing whitespace and lower-casing can be done in either order. |
| Text.Split | csv_flexible_to_ics.py:68-68 | `split(',')` yields at least one part, no part contains the separator, and joining the parts gives the input back. |
| Text.SplitJoin | csv_flexible_to_ics.py:68-68 | Splitting undoes joining whenever no part contains the separator. |
| Text.SplitConcat | csv_flexible_to_ics.py:68-68 | Splitting a text joined at a separator gives the parts of each side, in order. |
| Text.NatToDigits | csv_flexible_to_ics.py:36-36 | The decimal spelling is non-empty digits with no leading zero, and it reads back as the number. |
| Text.ParseFormatInt | csv_flexible_to_ics.py:114-114 | `int()` reads back the decimal spelling of every integer, negative ones included, with any whitespace around it. |
| Text.ParseIntDigits | csv_flexible_to_ics.py:121-121 | `int()` of a text that strips to a digit string is that string's decimal value. |
| Text.ParseIntBlank | csv_flexible_to_ics.py:114-114 | `int()` of blank text is an error, which is why a blank interval is replaced by `1` before it is read. |
| Gregorian.ToOrdinal | csv_flexible_to_ics.py:47-48 | `date(y, m, d).toordinal()` of a valid date lies among the ordinals of year `y`, after those of all earlier years. |
| Gregorian.ToOrdinalNextDay | csv_flexible_to_ics.py:166-167 | The next calendar day has the next ordinal and the next weekday, so adding a `timedelta` of days walks the calendar. |
| Gregorian.ToOrdinalIncreasing | csv_flexible_to_ics.py:47-48 | A later calendar date has a larger ordinal. |
| Gregorian.ToOrdinalInjective | csv_flexible_to_ics.py:47-48 | Distinct calendar dates have distinct ordinals. |
| Gregorian.DayOfWeekNext | csv_flexible_to_ics.py:166-166 | `weekday()` advances by one each day, wrapping from Sunday to Monday. |
| Gregorian.OrdinalBounds | csv_flexible_to_ics.py:167-167 | 0001-01-01 is ordinal 1 and 9999-12-31 is the largest ordinal, so ordinals cover exactly the dates `datetime.date` can hold. |
| Gregorian.FirstDayIsMonday | csv_flexible_to_ics.py:166-166 | `weekday()` of 0001-01-01 is 0, Monday, which fixes the weekday of every ordinal. |
| Records.Get | csv_flexible_to_ics.py:185-185 | `row.get(k)` is absent exactly when no item has key `k`. Otherwise it is the value of the last item with that key. |
| Records.GetOr | csv_flexible_to_ics.py:94-95 | `row.get(k) or default` is the default when no item has key `k`. Otherwise the last item with that key decides: its value, or the default when that value is empty. |
| Records.Lookup | csv_flexible_to_ics.py:99-101 | `row[k]` is a `KeyError` for `k` exactly when no item has key `k`. Otherwise it is the value of the last item with that key. |
| Normalizers.NormalizeWeekdayVariants | csv_flexible_to_ics.py:15-29 | Any case variant of an alias, with any whitespace around it, gives that alias's code. |
| Normalizers.NormalizeAliasKey | csv_flexible_to_ics.py:15-29 | Every key of the alias table, as written, normalises to its own code. |
| Normalizers.NormalizeIsoWeekdayNumber | csv_flexible_to_ics.py:15-22 | Every weekday is reached from its ISO number, 1 for Monday through 7 for Sunday. |
| Normalizers.NormalizeWeekdayIgnoresCase | csv_flexible_to_ics.py:27-29 | Lower-casing a text first never changes the result, whether the text names a weekday or not. |
| Normalizers.NormalizeWeekdayByStrip | csv_flexible_to_ics.py:15-29 | `normalize_weekday` equals a lookup of the stripped, lower-cased text in the alias table, with no whitespace collapsing: a hit gives that alias's code and a miss gives `None`. No alias holds whitespace, so collapsing inner runs never changes the answer. |
| Normalizers.NormalizeWeekdayOnlyAliases | csv_flexible_to_ics.py:27-29 | A text names a weekday only when it is an alias in some case, with whitespace around it, and the weekday it names is that alias's. |
| Normalizers.NormalizeWeekdayBlank | csv_flexible_to_ics.py:27-29 | An empty or all-whitespace cell names no weekday. |
| Normalizers.CodesAreNotAliases | csv_flexible_to_ics.py:15-29 | None of the seven output codes `MO` to `SU` is itself accepted as a weekday, so each normalises to `None`. |
| Normalizers.WeekdayKeyOfWord | csv_flexible_to_ics.py:27-29 | The lookup key of a whitespace-free word with whitespace around it is the lower-cased word. |
| Normalizers.ParseTimeExactly | csv_flexible_to_ics.py:32-37 | `parse_hhmm` yields a time `t` exactly when the stripped text is `HH:MM`, or `H:MM` for an hour below 10, for `t`. Every other text, including an hour over 23 or a minute over 59, is an error. |
| Normalizers.ParseTimeOfSpelling | csv_flexible_to_ics.py:32-37 | Each spelling of a time parses to that time. |
| Normalizers.SpellingOfParsedTime | csv_flexible_to_ics.py:32-37 | Whatever parses as a time is one of that time's spellings. |
| Normalizers.ParseTimePadded | csv_flexible_to_ics.py:32-37 | The zero-padded `HH:MM` rendering of any time parses back to that time. |
| Normalizers.ParseTimeRoundTrip | csv_flexible_to_ics.py:32-37 | The zero-padded rendering of any time, with whitespace around it, parses back to that time. |
| Normalizers.DateFields | csv_flexible_to_ics.py:41-45 | Three numerals joined by any two of `-`, `.`, `/`, with whitespace around them, split back into those numerals once separators are unified. |
| Normalizers.MakeDateInjective | csv_flexible_to_ics.py:47-48 | `date(y, m, d)` gives distinct dates for distinct valid triples. |
| Normalizers.ParseDateYearFirst | csv_flexible_to_ics.py:40-48 | A `YYYY-M-D` text is read year first, whatever the ISO fallback does. An impossible date is an immediate error, never retried as `D-M-YYYY`. |
| Normalizers.ParseDateDayFirst | csv_flexible_to_ics.py:49-53 | A `D-M-YYYY` text is read day first. |
| Normalizers.ParseDateOtherwiseIso | csv_flexible_to_ics.py:40-55 | A text matches neither numeric pattern in two cases: it has no `-`, `.` or `/`, or, after `.` and `/` become `-`, it holds a character that is neither a digit nor `-` (`2021-W01-1`, `2024/W36/1`). Its stripped, separator-mapped form then goes to `date.fromisoformat`; an accepted date is the result, and a rejection is an error naming exactly that form. |
| Normalizers.StripSeparators | csv_flexible_to_ics.py:41-43 | Stripping and turning `.` and `/` into `-` can be done in either order, because the separators are not whitespace. |
| Normalizers.ParseDateSeparatorsAgree | csv_flexible_to_ics.py:41-55 | `parse_date` gives the same result on a text as on that text with `.` and `/` turned into `-`. So both numeric patterns and the `date.fromisoformat` fallback see the unified text. |
| Normalizers.ParseIsoSpelling | csv_flexible_to_ics.py:40-48 | The `YYYY-MM-DD` spelling of every real date gives that date. |
| Normalizers.ParseDayFirstSpelling | csv_flexible_to_ics.py:40-53 | The `DD/MM/YYYY` spelling of every real date gives that same date. |
| Normalizers.WeekdayOffset | csv_flexible_to_ics.py:164-167 | `(target - weekday) % 7` is under 7 and lands on the target weekday, and no earlier day in between has it. |
| Normalizers.FirstDateForWeekday | csv_flexible_to_ics.py:164-167 | The anchor is on or after the start and at most 6 days later, and it has the target weekday. No earlier day in that range has it, and it equals the start exactly when the start already has that weekday. It fails only on overflow past 9999-12-31, and then no later representable day has the weekday. The simple converter's `first_date_for_weekday` is the same function. |
| Normalizers.SummaryOf | csv_flexible_to_ics.py:94-94 | The summary is never empty. It is the stripped name, or `Course` when that is blank. |
| FlexibleConverter.HeaderKeys | csv_flexible_to_ics.py:173-173 | The compared header names have no whitespace at either end and no capital letter. A file without a header line gives none. |
| FlexibleConverter.MissingBase | csv_flexible_to_ics.py:173-177 | A column is reported missing exactly when it is required and no header, stripped and lower-cased, equals it. A file without a header line lacks all three. |
| FlexibleConverter.MissingBaseExactly | csv_flexible_to_ics.py:173-177 | For every header line and every required column, in both directions: the column is reported missing exactly when no header name, stripped and lower-cased, equals it. |
| FlexibleConverter.HeaderFoundInAnyCase | csv_flexible_to_ics.py:173-177 | A header that spells a required column in any mix of upper and lower case, with any whitespace around it, satisfies the check for that column. |
| FlexibleConverter.LowerKeysGet | csv_flexible_to_ics.py:185-185 | A lookup in the lowered row finds nothing exactly when no key lower-cases to the name. Otherwise it finds the value of the last key that does. |
| FlexibleConverter.CreateEventSingle | csv_flexible_to_ics.py:145-161 | A single event starts and ends on the parsed `date`, at the parsed `start` and `end` times, in the given zone. Its summary is the stripped name or `Course`, and its location is the stripped location when that is non-empty. It has no rule, exception dates or extra dates. It succeeds exactly when `start`, `end` and `date` are present and parse, and a missing `start` is a `KeyError`. |
| FlexibleConverter.IntervalOf | csv_flexible_to_ics.py:114-114 | A blank or missing interval is 1. Otherwise the result succeeds exactly when `int()` accepts the text, and is then its value. Text `int()` rejects is an error naming the stripped text. |
| FlexibleConverter.IntervalOfLiteral | csv_flexible_to_ics.py:114-114 | Any integer written in the interval column, with whitespace around it, is the interval, including 0 and negative numbers. |
| FlexibleConverter.Terminator | csv_flexible_to_ics.py:117-134 | COUNT and UNTIL are never both set. A non-empty count decides alone, as `int()` of it. Otherwise a non-empty end date that parses gives UNTIL at 23:59 of that date in the zone. With neither, COUNT is 30. The rule is unbounded exactly when the deciding text does not parse. |
| FlexibleConverter.DatesOf | csv_flexible_to_ics.py:67-89 | The dates added number at most the non-blank items, and each is at the given time and zone. |
| FlexibleConverter.DatesOfMembers | csv_flexible_to_ics.py:67-89 | A date is added exactly when some non-blank item parses to it. Items that do not parse are skipped. |
| FlexibleConverter.DatesOfAppend | csv_flexible_to_ics.py:68-76 | Items are handled one at a time in order, so the dates of a list are those of its front followed by those of its back. |
| FlexibleConverter.DatesOfTextConcat | csv_flexible_to_ics.py:68-68 | Joining two column values with a comma adds the first value's dates, then the second's. |
| FlexibleConverter.DatesOfText | csv_flexible_to_ics.py:67-89 | The dates of a column value are all at the given time and zone, and a date is among them exactly when one of its comma-separated items names it. |
| FlexibleConverter.ExDates | csv_flexible_to_ics.py:67-76 | Every exception date is at midnight in the row's zone, and a date is an exception exactly when one of the comma-separated items of the `exceptions` column names it. |
| FlexibleConverter.RDates | csv_flexible_to_ics.py:79-89 | Every extra date is at the series' start time in the row's zone, and a date is added exactly when one of the comma-separated items of the `rdates` column names it. |
| FlexibleConverter.SeriesFields | csv_flexible_to_ics.py:96-102 | An unknown weekday is reported with its raw text. The fields succeed exactly when the weekday is known, `start`, `end` and `start_date` are present and parse, and the anchor does not overflow. The times then come from `start` and `end`, and the anchor is the first day on or after `start_date` with the row's weekday. |
| FlexibleConverter.CreateEventRecurring | csv_flexible_to_ics.py:92-142 | A series starts on the anchor at the start time and ends that day at the end time, both in the given zone. Its summary and location are those of a single event. Its rule is weekly with the row's interval and terminator, never both COUNT and UNTIL. Its exception and extra dates are those of `ExDates` and `RDates`. The first failing field, then the interval, gives the error, and it succeeds exactly when the fields and the interval do. |
| FlexibleConverter.RowEvent | csv_flexible_to_ics.py:184-204 | A row with a non-empty `date` becomes a single event, and only such rows lack a rule. Any other row without `weekday`, or without `start_date`, ends the run. A row with both becomes a series. |
| FlexibleConverter.BuildCalendarFromCsv | csv_flexible_to_ics.py:170-206 | A missing base column ends the run before any row is read. Otherwise the calendar carries one event per row, in row order, under the converter's PRODID and version 2.0, or the run ends with the first failing row's error. |
| SimpleConverter.CheckHeader | csv_to_ics.py:87-91 | No header line is an error. Otherwise the check passes exactly when all five required names are present. |
| SimpleConverter.ReadRow | csv_to_ics.py:92-100 | An unknown weekday ends the run with its text, and with a known weekday a bad start time ends it next. A meeting has the normalised weekday and the parsed start and end times. Its name is the stripped name or `Course`, and its location is the stripped location. It succeeds exactly when the weekday is known and both times parse. |
| SimpleConverter.ReadCsv | csv_to_ics.py:84-101 | The header check comes first. Then the result is one meeting per row in order, or the first bad row's error. |
| SimpleConverter.MeetingEvent | csv_to_ics.py:67-79 | The event's start and end fall on the first day on or after the term start with the meeting's weekday, at the meeting's times. Its summary is the name, and its location is the meeting's location when that is non-empty. Its rule is weekly with COUNT equal to the number of weeks and no interval or UNTIL. It fails only on date overflow. |
| SimpleConverter.BuildCalendar | csv_to_ics.py:55-81 | One event per meeting, in order, under the converter's PRODID and version 2.0. |
| SimpleConverter.Convert | csv_to_ics.py:114-119 | Header errors come first, and a file with no rows is an error. With good rows, a term start `fromisoformat` rejects is an error. The run succeeds exactly when the header is good, there are rows, every row reads, the term start reads and no anchor overflows. Then every row has its event, in order, under the converter's PRODID. |
| ConvertersCompared.SimpleHeaderPassesFlexible | csv_to_ics.py:88-91 | Every header the simple converter's exact check accepts also passes the flexible converter's check. |
| Scenarios.CalculusSeries | csv_flexible_to_ics.py:92-142 | The example course row becomes a series of 5 weekly Monday meetings, 09:00 to 10:30, from 2024-09-02. |
| Scenarios.LabMeeting | csv_to_ics.py:92-100 | The example lab row reads as a Friday meeting, 14:00 to 16:00, in `Rm 301`. |
| Scenarios.LabAnchor | csv_to_ics.py:49-52 | The first Friday on or after Monday 2024-09-02 is 2024-09-06. |
| Scenarios.LabSeries | csv_to_ics.py:67-79 | With term start 2024-09-02 and 12 weeks, the lab is a weekly series of 12 meetings from Friday 2024-09-06. |
| Scenarios.ZeroInterval | csv_flexible_to_ics.py:114-114 | An interval of `0` is accepted as 0. |
| Scenarios.NegativeInterval | csv_flexible_to_ics.py:114-114 | An interval of ` -2 ` is accepted as -2. |
| Scenarios.WordInterval | csv_flexible_to_ics.py:114-114 | An interval of `two` ends the run. |
| Scenarios.WordCountIsUnbounded | csv_flexible_to_ics.py:119-123 | A count of `five` gives a rule with neither COUNT nor UNTIL, even with an end date present. |
| Scenarios.CapitalisedHeadersFlexible | csv_flexible_to_ics.py:173-177 | The headers `Name`, `Start`, `End` pass the flexible check. |
| Scenarios.CapitalisedHeadersSimple | csv_to_ics.py:88-91 | The same capitalisation fails the simple check on all five columns. |
| Scenarios.PaddedHeaderPassesCheck | csv_flexible_to_ics.py:173-177 | A header ` start` passes the flexible check. |
| Scenarios.PaddedHeaderFailsLookup | csv_flexible_to_ics.py:145-151 | Under that header a dated row fails on `row['start']`. |

## Left out

- Reading the CSV file (`csv.DictReader`, the UTF-8 byte-order mark, quoting) is not modelled. The header is given as `Option<seq<string>>` and the records as rows of `(key, value)` items.
- `DictReader` gives `None` for the missing fields of a short record and puts the extra fields of a long record under the key `None`. The model gives every field a text value, so those cases are not covered.
- The `icalendar` objects and `to_ical()` serialisation are a foreign library. Events and calendars are plain records holding the properties the converters add, in the order added.
- Time-zone resolution (`get_tz`, `ZoneInfo`, `pytz`) is an external database. A zone is an opaque name carried by each date-time.
- An unknown zone name makes `ZoneInfo` and then `pytz.timezone` raise. In the flexible converter this happens at the start of every event builder (csv_flexible_to_ics.py:93, csv_flexible_to_ics.py:146). In the simple converter it happens before any event is built (csv_to_ics.py:56-61). The model never fails on a zone, so it does not cover that error.
- `date.fromisoformat` depends on the Python version and is a parameter.
- Unicode decimal digits in `\d` and `int()`, and non-ASCII case mapping in `lower()`, are not modelled. Digits and lower-casing are ASCII only. Whitespace follows `str.isspace()` in full.
- `int()`'s limit on the number of digits (Python 3.11 and later) is not modelled.
- Argument parsing, printing and writing the output file are I/O. `SimpleConverter.Convert` starts from the parsed arguments. The flexible converter's `main` only calls `build_calendar_from_csv` and writes the result.
- The unused `has_rec` and `is_recurring_row` variables have no effect and are not modelled.
- The messages of `SystemExit` and the exceptions are not modelled. Each error is a constructor with the data its message names. The missing columns are a set, because the source lists them in set-iteration order.
- `["MO", ...].index(code)` cannot fail here, because codes only come from the alias table. The model's `Weekday` type has exactly the seven codes.
