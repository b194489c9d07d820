/** `csv_to_ics.py`: every CSV row is a weekly meeting with a weekday, a start
    and end time and a location; each becomes a series anchored at the first
    matching weekday on or after the term start, repeated for a fixed number of
    weeks. Column names are matched exactly. */
module SimpleConverter {
  import opened Wrappers
  import opened Text
  import opened Gregorian
  import opened Records
  import opened Normalizers

  /** `CourseMeeting`: one validated row. */
  datatype CourseMeeting = CourseMeeting(name: string, weekday: Weekday, startTime: Time, endTime: Time, location: string)

  const ProdId := "-//CSV Course Importer//iOS//"

  /** The columns the header must name, exactly as written. */
  const RequiredColumns: set<string> := {"name", "weekday", "start", "end", "location"}

  /** The required columns absent from the header. The names are compared as they
      are, without stripping or lower-casing. */
  function MissingColumnsOf(names: seq<string>): (missing: set<string>)
    ensures forall c :: c in missing <==> c in RequiredColumns && forall i :: 0 <= i < |names| ==> names[i] != c
  {
    set c | c in RequiredColumns && c !in names
  }

  /** The header check of `read_csv`: a file without a header line makes the
      membership test fail with a `TypeError`. */
  function CheckHeader(fieldnames: Option<seq<string>>): (r: Result<(), Error>)
    ensures fieldnames.None? ==> r == Failure(MissingHeader)
    ensures fieldnames.Some? ==> (r.Success? <==> forall c :: c in RequiredColumns ==> c in fieldnames.value)
    ensures fieldnames.Some? && r.Failure? ==> r.error == MissingColumns(MissingColumnsOf(fieldnames.value))
  {
    match fieldnames
    case None => Failure(MissingHeader)
    case Some(names) =>
      var missing := MissingColumnsOf(names);
      if missing == {} then Success(()) else Failure(MissingColumns(missing))
  }

  /** One iteration of `read_csv`: the weekday first, then the start and end
      times; the name and location cannot fail. A missing time column reads as
      the empty text, which is not a time. */
  function ReadRow(row: Row): (r: Result<CourseMeeting, Error>)
    ensures NormalizeWeekday(GetOr(row, "weekday", "")).None? ==>
      r == Failure(InvalidWeekday(GetOr(row, "weekday", "")))
    ensures r.Success? ==>
      && NormalizeWeekday(GetOr(row, "weekday", "")) == Some(r.value.weekday)
      && ParseTime(GetOr(row, "start", "")) == Success(r.value.startTime)
      && ParseTime(GetOr(row, "end", "")) == Success(r.value.endTime)
      && r.value.name != ""
      && Trimmed(r.value.location)
    ensures r.Success? ==>
      && r.value.name == SummaryOf(GetOr(row, "name", ""))
      && r.value.location == Strip(GetOr(row, "location", ""))
    ensures NormalizeWeekday(GetOr(row, "weekday", "")).Some? && ParseTime(GetOr(row, "start", "")).Failure? ==>
      r == Failure(ParseTime(GetOr(row, "start", "")).error)
    ensures r.Success? <==>
      && NormalizeWeekday(GetOr(row, "weekday", "")).Some?
      && ParseTime(GetOr(row, "start", "")).Success?
      && ParseTime(GetOr(row, "end", "")).Success?
  {
    var weekdayText := GetOr(row, "weekday", "");
    var weekday :- match NormalizeWeekday(weekdayText)
                   case Some(w) => Success(w)
                   case None => Failure(InvalidWeekday(weekdayText));
    var name := SummaryOf(GetOr(row, "name", ""));
    var start :- ParseTime(GetOr(row, "start", ""));
    var end :- ParseTime(GetOr(row, "end", ""));
    var location := Strip(GetOr(row, "location", ""));
    Success(CourseMeeting(name, weekday, start, end, location))
  }

  /** `read_csv` on the header and the records the reader yields: the header
      check, then one meeting per row in order, the first bad row ending the run. */
  method ReadCsv(fieldnames: Option<seq<string>>, rows: seq<Row>) returns (r: Result<seq<CourseMeeting>, Error>)
    ensures CheckHeader(fieldnames).Failure? ==> r == Failure(CheckHeader(fieldnames).error)
    ensures r.Success? <==> CheckHeader(fieldnames).Success? && forall i :: 0 <= i < |rows| ==> ReadRow(rows[i]).Success?
    ensures r.Success? ==> |r.value| == |rows| && forall i :: 0 <= i < |rows| ==> r.value[i] == ReadRow(rows[i]).value
    ensures r.Failure? && CheckHeader(fieldnames).Success? ==>
      exists k :: 0 <= k < |rows| && ReadRow(rows[k]) == Failure(r.error)
        && forall j :: 0 <= j < k ==> ReadRow(rows[j]).Success?
  {
    var _ :- CheckHeader(fieldnames);
    r := MapUntilFailure(rows, ReadRow);
  }

  /** The event `build_calendar` makes for one meeting: a weekly series of
      `weeks` occurrences whose first one is the first day on or after the term
      start that falls on the meeting's weekday. */
  function MeetingEvent(c: CourseMeeting, termStart: Date, weeks: int, zone: Zone): (r: Result<Event, Error>)
    ensures r.Failure? ==> r.error == DateOverflow
    ensures r.Failure? <==> termStart + (c.weekday.Index() - DayOfWeek(termStart)) % 7 > MaxOrdinal
    ensures r.Success? ==>
      && termStart <= r.value.start.date <= termStart + 6
      && DayOfWeek(r.value.start.date) == c.weekday.Index()
      && (forall n :: termStart <= n < r.value.start.date ==> DayOfWeek(n) != c.weekday.Index())
      && r.value.end.date == r.value.start.date
      && r.value.start == DateTime(r.value.start.date, c.startTime, zone)
      && r.value.end == DateTime(r.value.start.date, c.endTime, zone)
    ensures r.Success? ==>
      && r.value.summary == c.name
      && (r.value.location.Some? <==> c.location != "")
      && r.value.location == OptionalText(c.location)
      && r.value.rrule == Some(RRule(Weekly, None, Some(weeks), None))
      && r.value.exdates == [] && r.value.rdates == []
  {
    WeekdayOffset(termStart, c.weekday.Index());
    var first :- FirstDateForWeekday(termStart, c.weekday);
    Success(Event(c.name, OptionalText(c.location), DateTime(first, c.startTime, zone), DateTime(first, c.endTime, zone),
                  Some(RRule(Weekly, None, Some(weeks), None)), [], []))
  }

  /** `build_calendar`: one event per meeting, in order. */
  method BuildCalendar(courses: seq<CourseMeeting>, termStart: Date, weeks: int, zone: Zone) returns (r: Result<Calendar, Error>)
    ensures r.Success? <==> forall i :: 0 <= i < |courses| ==> MeetingEvent(courses[i], termStart, weeks, zone).Success?
    ensures r.Failure? ==> r.error == DateOverflow
    ensures r.Success? ==>
      && r.value.prodId == ProdId && r.value.version == CalendarVersion
      && |r.value.events| == |courses|
      && forall i :: 0 <= i < |courses| ==> r.value.events[i] == MeetingEvent(courses[i], termStart, weeks, zone).value
  {
    var events :- MapUntilFailure(courses, c => MeetingEvent(c, termStart, weeks, zone));
    return Success(Calendar(ProdId, CalendarVersion, events));
  }

  /** `main` after argument parsing: read the file, refuse an empty one, read the
      term start with `date.fromisoformat`, and build the calendar. */
  method Convert(fieldnames: Option<seq<string>>, rows: seq<Row>, termStartText: string, weeks: int, zone: Zone, iso: IsoParser)
    returns (r: Result<Calendar, Error>)
    ensures CheckHeader(fieldnames).Failure? ==> r == Failure(CheckHeader(fieldnames).error)
    ensures CheckHeader(fieldnames).Success? && |rows| == 0 ==> r == Failure(NoMeetings)
    ensures r.Success? ==>
      && |rows| > 0
      && iso(termStartText).Some?
      && |r.value.events| == |rows|
      && forall i :: 0 <= i < |rows| ==>
           && ReadRow(rows[i]).Success?
           && MeetingEvent(ReadRow(rows[i]).value, iso(termStartText).value, weeks, zone).Success?
           && r.value.events[i] == MeetingEvent(ReadRow(rows[i]).value, iso(termStartText).value, weeks, zone).value
    ensures r.Success? ==> r.value.prodId == ProdId && r.value.version == CalendarVersion
    ensures CheckHeader(fieldnames).Success? && |rows| > 0 && (forall i :: 0 <= i < |rows| ==> ReadRow(rows[i]).Success?)
            && iso(termStartText).None? ==>
      r == Failure(BadDateFormat(termStartText))
    ensures r.Success? <==>
      && CheckHeader(fieldnames).Success?
      && |rows| > 0
      && (forall i :: 0 <= i < |rows| ==> ReadRow(rows[i]).Success?)
      && iso(termStartText).Some?
      && forall i :: 0 <= i < |rows| ==> MeetingEvent(ReadRow(rows[i]).value, iso(termStartText).value, weeks, zone).Success?
  {
    var meetings :- ReadCsv(fieldnames, rows);
    if |meetings| == 0 {
      return Failure(NoMeetings);
    }
    var termStart :- match iso(termStartText)
                     case Some(d) => Success(d)
                     case None => Failure(BadDateFormat(termStartText));
    r := BuildCalendar(meetings, termStart, weeks, zone);
    if r.Success? {
      forall i | 0 <= i < |rows|
        ensures r.value.events[i] == MeetingEvent(ReadRow(rows[i]).value, termStart, weeks, zone).value
      {
        assert meetings[i] == ReadRow(rows[i]).value;
      }
    }
  }
}
