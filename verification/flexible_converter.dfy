/** `csv_flexible_to_ics.py`: one VEVENT per CSV row, either a single dated
    meeting (a non-empty `date` column) or a weekly series anchored at the first
    matching weekday on or after `start_date`, with an optional interval, a
    COUNT or UNTIL terminator, exception dates and extra dates. Column names are
    matched case-insensitively. */
module FlexibleConverter {
  import opened Wrappers
  import opened Text
  import opened Gregorian
  import opened Records
  import opened Normalizers

  const ProdId := "-//Flexible CSV Course Importer//iOS//"

  /** The columns every file must declare, whatever kind its rows are. */
  const RequiredBase: set<string> := {"name", "start", "end"}

  /** The COUNT a series gets when the row names neither a count nor an end date. */
  const FallbackCount := 30

  // ---------------------------------------------------------------------------
  // Header check and row keys

  /** Every name, stripped then lower-cased, has no whitespace at its ends. */
  lemma KeysTrimmed(names: seq<string>)
    ensures forall i :: 0 <= i < |names| ==> Trimmed(Lower(Strip(names[i])))
  {
    forall i | 0 <= i < |names| ensures Trimmed(Lower(Strip(names[i]))) {
      LowerTrimmed(Strip(names[i]));
    }
  }

  /** The header names as the check compares them: stripped, then lower-cased. */
  function HeaderKeys(fieldnames: Option<seq<string>>): (keys: set<string>)
    ensures fieldnames.None? ==> keys == {}
    ensures forall k :: k in keys ==> Trimmed(k) && forall i :: 0 <= i < |k| ==> !IsUpper(k[i])
  {
    var names := if fieldnames.Some? then fieldnames.value else [];
    KeysTrimmed(names);
    set i | 0 <= i < |names| :: Lower(Strip(names[i]))
  }

  /** The required columns the header lacks. A file with no header line at all
      (`reader.fieldnames` is `None`) is treated as declaring no columns. */
  function MissingBase(fieldnames: Option<seq<string>>): (missing: set<string>)
    ensures forall c :: c in missing <==> c in RequiredBase && c !in HeaderKeys(fieldnames)
    ensures fieldnames.None? ==> missing == RequiredBase
  {
    set c | c in RequiredBase && c !in HeaderKeys(fieldnames)
  }

  /** The check in both directions: a required column is reported missing
      exactly when no header line name, stripped and lower-cased, equals it. */
  lemma MissingBaseExactly(names: seq<string>, c: string)
    requires c in RequiredBase
    ensures c in MissingBase(Some(names)) <==> forall i :: 0 <= i < |names| ==> Lower(Strip(names[i])) != c
  {
    if c !in MissingBase(Some(names)) {
      assert c in HeaderKeys(Some(names));
      var i :| 0 <= i < |names| && Lower(Strip(names[i])) == c;
    } else {
      forall i | 0 <= i < |names| ensures Lower(Strip(names[i])) != c {
        assert Lower(Strip(names[i])) in HeaderKeys(Some(names));
      }
    }
  }

  /** A header that spells a required column in any mix of upper and lower
      case, with any whitespace around it, satisfies the check for that column. */
  lemma HeaderFoundInAnyCase(names: seq<string>, i: int, p: string, t: string, q: string)
    requires 0 <= i < |names| && names[i] == p + t + q
    requires AllSpace(p) && AllSpace(q)
    requires Lower(t) in RequiredBase
    ensures Lower(t) !in MissingBase(Some(names))
  {
    LowerKeepsSpaces(t);
    var k := Lower(t);
    assert k == "name" || k == "start" || k == "end";
    assert !IsSpace(k[0]) && !IsSpace(k[|k| - 1]);
    StripPadding(p, t, q);
    assert Lower(Strip(names[i])) == k;
  }

  /** `{k.lower(): v for k, v in row.items()}`: keys lower-cased, values and their
      order kept, so the last of several keys that coincide once lower-cased wins. */
  function LowerKeys(row: Row): (r: Row)
    ensures |r| == |row|
    ensures forall i :: 0 <= i < |row| ==> r[i].0 == Lower(row[i].0) && r[i].1 == row[i].1
  {
    seq(|row|, i requires 0 <= i < |row| => (Lower(row[i].0), row[i].1))
  }

  /** A lookup in the lowered row finds a column whatever its case in the file:
      nothing when no key lower-cases to `key`, and otherwise the value of the
      last key that does. */
  lemma LowerKeysGet(row: Row, key: string)
    ensures Get(LowerKeys(row), key).None? <==> forall i :: 0 <= i < |row| ==> Lower(row[i].0) != key
    ensures Get(LowerKeys(row), key).Some? ==>
      exists i :: 0 <= i < |row| && Lower(row[i].0) == key && row[i].1 == Get(LowerKeys(row), key).value
        && forall j :: i < j < |row| ==> Lower(row[j].0) != key
  {
    var r := LowerKeys(row);
    assert forall i :: 0 <= i < |row| ==> r[i].0 == Lower(row[i].0);
  }

  // ---------------------------------------------------------------------------
  // Single-date rows

  /** `create_event_single`: `row['start']`, `row['end']` and `row['date']` are
      read in that order, and the first missing key or unreadable value ends the
      run. */
  function CreateEventSingle(row: Row, zone: Zone, iso: IsoParser): (r: Result<Event, Error>)
    ensures Get(row, "start").None? ==> r == Failure(KeyMissing("start"))
    ensures r.Success? ==> Get(row, "start").Some? && Get(row, "end").Some? && Get(row, "date").Some?
    ensures r.Success? ==>
      && ParseTime(Get(row, "start").value) == Success(r.value.start.time)
      && ParseTime(Get(row, "end").value) == Success(r.value.end.time)
      && ParseDate(Get(row, "date").value, iso) == Success(r.value.start.date)
    ensures r.Success? ==>
      && r.value.start.date == r.value.end.date
      && r.value.start.zone == zone && r.value.end.zone == zone
      && r.value.summary != ""
      && r.value.rrule.None? && r.value.exdates == [] && r.value.rdates == []
    ensures r.Success? ==>
      && r.value.summary == SummaryOf(GetOr(row, "name", ""))
      && r.value.location == OptionalText(Strip(GetOr(row, "location", "")))
    ensures r.Success? <==>
      && Get(row, "start").Some? && ParseTime(Get(row, "start").value).Success?
      && Get(row, "end").Some? && ParseTime(Get(row, "end").value).Success?
      && Get(row, "date").Some? && ParseDate(Get(row, "date").value, iso).Success?
  {
    var name := SummaryOf(GetOr(row, "name", ""));
    var location := Strip(GetOr(row, "location", ""));
    var startText :- Lookup(row, "start");
    var start :- ParseTime(startText);
    var endText :- Lookup(row, "end");
    var end :- ParseTime(endText);
    var dateText :- Lookup(row, "date");
    var date :- ParseDate(dateText, iso);
    Success(Event(name, OptionalText(location), DateTime(date, start, zone), DateTime(date, end, zone), None, [], []))
  }

  // ---------------------------------------------------------------------------
  // The recurrence rule

  /** `int((row.get('interval') or '1').strip() or '1')`: a blank or missing
      interval is 1 (the default `'1'` reads as 1, so the text is not parsed in
      that case); anything else must be an integer literal, and zero or a
      negative number is passed on as it is. */
  function IntervalOf(row: Row): (r: Result<int, Error>)
    ensures Strip(GetOr(row, "interval", "")) == "" ==> r == Success(1)
    ensures r.Failure? ==> r.error == BadInteger(Strip(GetOr(row, "interval", "")))
    ensures r.Success? && Strip(GetOr(row, "interval", "")) != "" ==> ParseInt(GetOr(row, "interval", "")) == Some(r.value)
    ensures Strip(GetOr(row, "interval", "")) != "" ==> (r.Success? <==> ParseInt(GetOr(row, "interval", "")).Some?)
  {
    var text := Strip(GetOr(row, "interval", ""));
    StripIdempotent(GetOr(row, "interval", ""));
    if text == "" then Success(1)
    else
      match ParseInt(text)
      case Some(n) => Success(n)
      case None => Failure(BadInteger(text))
  }

  /** An interval written as a decimal integer, with any whitespace around it,
      is that integer, whatever its sign. */
  lemma IntervalOfLiteral(row: Row, p: string, n: int, q: string)
    requires AllSpace(p) && AllSpace(q)
    requires Get(row, "interval") == Some(p + FormatInt(n) + q)
    ensures IntervalOf(row) == Success(n)
  {
    var v := p + FormatInt(n) + q;
    FormatIntTrimmed(n);
    StripPadding(p, FormatInt(n), q);
    ParseFormatInt(p, n, q);
    StripIdempotent(v);
    assert GetOr(row, "interval", "") == v;
    assert ParseInt(Strip(v)) == Some(n);
  }

  /** The COUNT and UNTIL of the rule. A non-empty `count` decides alone: its
      integer, or no bound at all when it is not one. Otherwise a non-empty
      `end_date` gives UNTIL at 23:59 of that day, or no bound when it is not a
      date. A row with neither gets a COUNT of 30. */
  function Terminator(row: Row, zone: Zone, iso: IsoParser): (r: (Option<int>, Option<DateTime>))
    ensures !(r.0.Some? && r.1.Some?)
    ensures Strip(GetOr(row, "count", "")) != "" ==> r.1.None? && r.0 == ParseInt(GetOr(row, "count", ""))
    ensures r.1.Some? ==>
      && r.1.value.time == EndOfDay && r.1.value.zone == zone
      && ParseDate(Strip(GetOr(row, "end_date", "")), iso) == Success(r.1.value.date)
    ensures Strip(GetOr(row, "count", "")) == "" && Strip(GetOr(row, "end_date", "")) != ""
            && ParseDate(Strip(GetOr(row, "end_date", "")), iso).Success? ==>
      r == (None, Some(DateTime(ParseDate(Strip(GetOr(row, "end_date", "")), iso).value, EndOfDay, zone)))
    ensures Strip(GetOr(row, "count", "")) == "" && Strip(GetOr(row, "end_date", "")) == "" ==>
      r == (Some(FallbackCount), None)
    ensures r.0.None? && r.1.None? <==>
      if Strip(GetOr(row, "count", "")) != "" then ParseInt(GetOr(row, "count", "")).None?
      else Strip(GetOr(row, "end_date", "")) != "" && ParseDate(Strip(GetOr(row, "end_date", "")), iso).Failure?
  {
    var countText := Strip(GetOr(row, "count", ""));
    var endText := Strip(GetOr(row, "end_date", ""));
    StripIdempotent(GetOr(row, "count", ""));
    if countText != "" then (ParseInt(countText), None)
    else if endText != "" then
      match ParseDate(endText, iso)
      case Success(d) => (None, Some(DateTime(d, EndOfDay, zone)))
      case Failure(_) => (None, None)
    else (Some(FallbackCount), None)
  }

  // ---------------------------------------------------------------------------
  // Exception and extra dates

  /** A comma-separated item that names a date: non-blank once stripped, and
      accepted by `parse_date`. */
  predicate IsDateItem(part: string, iso: IsoParser, d: Date) {
    Strip(part) != "" && ParseDate(Strip(part), iso) == Success(d)
  }

  /** The number of items that are not blank once stripped. */
  function NonBlankCount(parts: seq<string>): nat
    decreases |parts|
  {
    if |parts| == 0 then 0
    else (if Strip(parts[0]) == "" then 0 else 1) + NonBlankCount(parts[1..])
  }

  /** The loop of `add_exdates` and `add_rdates` over the comma-separated items:
      blank items and items `parse_date` rejects are skipped, every other item
      adds its date at `time` in `zone`, in the order of the items. */
  function DatesOf(parts: seq<string>, time: Time, zone: Zone, iso: IsoParser): (r: seq<DateTime>)
    ensures |r| <= NonBlankCount(parts)
    ensures forall k :: 0 <= k < |r| ==> r[k].time == time && r[k].zone == zone
    decreases |parts|
  {
    if |parts| == 0 then []
    else
      var rest := DatesOf(parts[1..], time, zone, iso);
      var t := Strip(parts[0]);
      if t == "" then rest
      else
        match ParseDate(t, iso)
        case Success(d) => [DateTime(d, time, zone)] + rest
        case Failure(_) => rest
  }

  /** A date is added exactly when some item names it. */
  lemma {:induction false} DatesOfMembers(parts: seq<string>, time: Time, zone: Zone, iso: IsoParser, d: Date)
    ensures DateTime(d, time, zone) in DatesOf(parts, time, zone, iso)
        <==> exists i :: 0 <= i < |parts| && IsDateItem(parts[i], iso, d)
    decreases |parts|
  {
    if |parts| > 0 {
      DatesOfMembers(parts[1..], time, zone, iso, d);
      var here := DateTime(d, time, zone);
      if exists i :: 1 <= i < |parts| && IsDateItem(parts[i], iso, d) {
        var i :| 1 <= i < |parts| && IsDateItem(parts[i], iso, d);
        assert parts[1..][i - 1] == parts[i];
      }
      if exists i :: 0 <= i < |parts[1..]| && IsDateItem(parts[1..][i], iso, d) {
        var i :| 0 <= i < |parts[1..]| && IsDateItem(parts[1..][i], iso, d);
        assert IsDateItem(parts[i + 1], iso, d);
      }
    }
  }

  /** Items are processed independently and in order, so the dates of a list are
      those of its front followed by those of its back. */
  lemma {:induction false} DatesOfAppend(a: seq<string>, b: seq<string>, time: Time, zone: Zone, iso: IsoParser)
    ensures DatesOf(a + b, time, zone, iso) == DatesOf(a, time, zone, iso) + DatesOf(b, time, zone, iso)
    decreases |a|
  {
    if |a| == 0 {
      assert a + b == b;
    } else {
      assert (a + b)[0] == a[0];
      assert (a + b)[1..] == a[1..] + b;
      DatesOfAppend(a[1..], b, time, zone, iso);
    }
  }

  /** Some item of the list names `d`. */
  predicate SomeItemNames(parts: seq<string>, iso: IsoParser, d: Date) {
    exists i :: 0 <= i < |parts| && IsDateItem(parts[i], iso, d)
  }

  /** `DatesOfMembers` for every date at once. */
  lemma DatesOfMembersAll(parts: seq<string>, time: Time, zone: Zone, iso: IsoParser)
    ensures forall d: Date :: (DateTime(d, time, zone) in DatesOf(parts, time, zone, iso)) <==> SomeItemNames(parts, iso, d)
  {
    forall d: Date
      ensures (DateTime(d, time, zone) in DatesOf(parts, time, zone, iso)) <==> SomeItemNames(parts, iso, d)
    {
      DatesOfMembers(parts, time, zone, iso, d);
    }
  }

  /** The dates of a comma-separated column value: each at `time` in `zone`,
      and a date is among them exactly when one of the comma-separated items
      names it. */
  function DatesOfText(text: string, time: Time, zone: Zone, iso: IsoParser): (r: seq<DateTime>)
    ensures forall k :: 0 <= k < |r| ==> r[k].time == time && r[k].zone == zone
    ensures forall d: Date :: (DateTime(d, time, zone) in r) <==> SomeItemNames(Split(text, ','), iso, d)
  {
    DatesOfMembersAll(Split(text, ','), time, zone, iso);
    DatesOf(Split(text, ','), time, zone, iso)
  }

  /** Joining two column values with a comma adds the dates of the first, then
      those of the second. */
  lemma DatesOfTextConcat(a: string, b: string, time: Time, zone: Zone, iso: IsoParser)
    ensures DatesOfText(a + "," + b, time, zone, iso) == DatesOfText(a, time, zone, iso) + DatesOfText(b, time, zone, iso)
  {
    SplitConcat(a, b, ',');
    DatesOfAppend(Split(a, ','), Split(b, ','), time, zone, iso);
  }

  /** `add_exdates` on the `exceptions` column: each date at midnight. */
  function ExDates(row: Row, zone: Zone, iso: IsoParser): (r: seq<DateTime>)
    ensures forall k :: 0 <= k < |r| ==> r[k].time == Midnight && r[k].zone == zone
    ensures forall d: Date :: (DateTime(d, Midnight, zone) in r) <==> SomeItemNames(Split(GetOr(row, "exceptions", ""), ','), iso, d)
  {
    DatesOfText(GetOr(row, "exceptions", ""), Midnight, zone, iso)
  }

  /** `add_rdates` on the `rdates` column: each date at the series' start time. */
  function RDates(row: Row, start: Time, zone: Zone, iso: IsoParser): (r: seq<DateTime>)
    ensures forall k :: 0 <= k < |r| ==> r[k].time == start && r[k].zone == zone
    ensures forall d: Date :: (DateTime(d, start, zone) in r) <==> SomeItemNames(Split(GetOr(row, "rdates", ""), ','), iso, d)
  {
    DatesOfText(GetOr(row, "rdates", ""), start, zone, iso)
  }

  // ---------------------------------------------------------------------------
  // Recurring rows

  /** The fields of a series that can end the run, read in the order
      `create_event_recurring` reads them: the weekday, `row['start']`,
      `row['end']`, `row['start_date']`, and the anchor date computed from the
      last and the first. */
  function SeriesFields(row: Row, iso: IsoParser): (r: Result<(Weekday, Time, Time, Date), Error>)
    ensures NormalizeWeekday(GetOr(row, "weekday", "")).None? ==>
      r == Failure(InvalidWeekday(GetOr(row, "weekday", "")))
    ensures r.Success? ==>
      && NormalizeWeekday(GetOr(row, "weekday", "")) == Some(r.value.0)
      && Get(row, "start").Some? && Get(row, "end").Some? && Get(row, "start_date").Some?
      && ParseTime(Get(row, "start").value) == Success(r.value.1)
      && ParseTime(Get(row, "end").value) == Success(r.value.2)
      && ParseDate(Get(row, "start_date").value, iso).Success?
    ensures r.Success? ==>
      var first := ParseDate(Get(row, "start_date").value, iso).value;
      && first <= r.value.3 <= first + 6
      && DayOfWeek(r.value.3) == r.value.0.Index()
      && forall n :: first <= n < r.value.3 ==> DayOfWeek(n) != r.value.0.Index()
    ensures r.Success? <==>
      && NormalizeWeekday(GetOr(row, "weekday", "")).Some?
      && Get(row, "start").Some? && ParseTime(Get(row, "start").value).Success?
      && Get(row, "end").Some? && ParseTime(Get(row, "end").value).Success?
      && Get(row, "start_date").Some? && ParseDate(Get(row, "start_date").value, iso).Success?
      && FirstDateForWeekday(ParseDate(Get(row, "start_date").value, iso).value,
                             NormalizeWeekday(GetOr(row, "weekday", "")).value).Success?
  {
    var weekdayText := GetOr(row, "weekday", "");
    var weekday :- match NormalizeWeekday(weekdayText)
                   case Some(w) => Success(w)
                   case None => Failure(InvalidWeekday(weekdayText));
    var startText :- Lookup(row, "start");
    var start :- ParseTime(startText);
    var endText :- Lookup(row, "end");
    var end :- ParseTime(endText);
    var startDateText :- Lookup(row, "start_date");
    var startDate :- ParseDate(startDateText, iso);
    var anchor :- FirstDateForWeekday(startDate, weekday);
    Success((weekday, start, end, anchor))
  }

  /** `create_event_recurring`: after the fields above, the interval is the last
      thing that can fail; the terminator and the date lists never do. The first
      occurrence is the first day on or after the start date that falls on the
      weekday, and the rule repeats weekly. */
  function CreateEventRecurring(row: Row, zone: Zone, iso: IsoParser): (r: Result<Event, Error>)
    ensures NormalizeWeekday(GetOr(row, "weekday", "")).None? ==>
      r == Failure(InvalidWeekday(GetOr(row, "weekday", "")))
    ensures r.Success? ==>
      && NormalizeWeekday(GetOr(row, "weekday", "")).Some?
      && Get(row, "start").Some? && Get(row, "end").Some? && Get(row, "start_date").Some?
      && ParseTime(Get(row, "start").value) == Success(r.value.start.time)
      && ParseTime(Get(row, "end").value) == Success(r.value.end.time)
      && ParseDate(Get(row, "start_date").value, iso).Success?
    ensures r.Success? ==>
      var first := ParseDate(Get(row, "start_date").value, iso).value;
      var weekday := NormalizeWeekday(GetOr(row, "weekday", "")).value;
      && first <= r.value.start.date <= first + 6
      && DayOfWeek(r.value.start.date) == weekday.Index()
      && (forall n :: first <= n < r.value.start.date ==> DayOfWeek(n) != weekday.Index())
      && r.value.end.date == r.value.start.date
      && r.value.start.zone == zone && r.value.end.zone == zone
    ensures r.Success? ==>
      && r.value.summary != ""
      && r.value.rrule.Some?
      && r.value.rrule.value.freq == Weekly
      && r.value.rrule.value.HasAtMostOneBound()
      && r.value.rrule.value.interval.Some?
      && IntervalOf(row) == Success(r.value.rrule.value.interval.value)
      && (r.value.rrule.value.count, r.value.rrule.value.until) == Terminator(row, zone, iso)
      && r.value.exdates == ExDates(row, zone, iso)
      && r.value.rdates == RDates(row, r.value.start.time, zone, iso)
    ensures r.Success? ==>
      && r.value.summary == SummaryOf(GetOr(row, "name", ""))
      && r.value.location == OptionalText(Strip(GetOr(row, "location", "")))
    ensures SeriesFields(row, iso).Failure? ==> r == Failure(SeriesFields(row, iso).error)
    ensures SeriesFields(row, iso).Success? && IntervalOf(row).Failure? ==> r == Failure(IntervalOf(row).error)
    ensures r.Success? <==> SeriesFields(row, iso).Success? && IntervalOf(row).Success?
  {
    var name := SummaryOf(GetOr(row, "name", ""));
    var location := Strip(GetOr(row, "location", ""));
    var fields :- SeriesFields(row, iso);
    var (_, start, end, anchor) := fields;
    var interval :- IntervalOf(row);
    var (count, until) := Terminator(row, zone, iso);
    var rule := RRule(Weekly, Some(interval), count, until);
    Success(Event(name, OptionalText(location), DateTime(anchor, start, zone), DateTime(anchor, end, zone),
                  Some(rule), ExDates(row, zone, iso), RDates(row, start, zone, iso)))
  }

  // ---------------------------------------------------------------------------
  // Rows and the calendar

  /** The per-row step of `build_calendar_from_csv`: keys are lower-cased; a
      non-empty `date` makes a single event; otherwise the row is a series and
      needs a non-empty `weekday` and then a non-empty `start_date`. */
  function RowEvent(row: Row, zone: Zone, iso: IsoParser): (r: Result<Event, Error>)
    ensures GetOr(LowerKeys(row), "date", "") != "" ==> r == CreateEventSingle(LowerKeys(row), zone, iso)
    ensures GetOr(LowerKeys(row), "date", "") == "" && GetOr(LowerKeys(row), "weekday", "") == "" ==>
      r == Failure(RecurringFieldMissing("weekday"))
    ensures GetOr(LowerKeys(row), "date", "") == "" && GetOr(LowerKeys(row), "weekday", "") != ""
            && GetOr(LowerKeys(row), "start_date", "") == "" ==>
      r == Failure(RecurringFieldMissing("start_date"))
    ensures GetOr(LowerKeys(row), "date", "") == "" && GetOr(LowerKeys(row), "weekday", "") != ""
            && GetOr(LowerKeys(row), "start_date", "") != "" ==>
      r == CreateEventRecurring(LowerKeys(row), zone, iso)
    ensures r.Success? ==> (r.value.rrule.None? <==> GetOr(LowerKeys(row), "date", "") != "")
  {
    var lowered := LowerKeys(row);
    if GetOr(lowered, "date", "") != "" then CreateEventSingle(lowered, zone, iso)
    else if GetOr(lowered, "weekday", "") == "" then Failure(RecurringFieldMissing("weekday"))
    else if GetOr(lowered, "start_date", "") == "" then Failure(RecurringFieldMissing("start_date"))
    else CreateEventRecurring(lowered, zone, iso)
  }

  /** `build_calendar_from_csv` on the header and the records the reader yields:
      the header check first, then one event per row in order; the first row that
      fails ends the run with its error. */
  method BuildCalendarFromCsv(fieldnames: Option<seq<string>>, rows: seq<Row>, zone: Zone, iso: IsoParser)
    returns (r: Result<Calendar, Error>)
    ensures MissingBase(fieldnames) != {} ==> r == Failure(MissingColumns(MissingBase(fieldnames)))
    ensures r.Success? <==> MissingBase(fieldnames) == {} && forall i :: 0 <= i < |rows| ==> RowEvent(rows[i], zone, iso).Success?
    ensures r.Success? ==>
      && r.value.prodId == ProdId && r.value.version == CalendarVersion
      && |r.value.events| == |rows|
      && forall i :: 0 <= i < |rows| ==> r.value.events[i] == RowEvent(rows[i], zone, iso).value
    ensures r.Failure? && MissingBase(fieldnames) == {} ==>
      exists k :: 0 <= k < |rows| && RowEvent(rows[k], zone, iso) == Failure(r.error)
        && forall j :: 0 <= j < k ==> RowEvent(rows[j], zone, iso).Success?
  {
    var missing := MissingBase(fieldnames);
    if missing != {} {
      return Failure(MissingColumns(missing));
    }
    var events :- MapUntilFailure(rows, row => RowEvent(row, zone, iso));
    return Success(Calendar(ProdId, CalendarVersion, events));
  }
}
