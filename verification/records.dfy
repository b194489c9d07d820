/** The data the converters pass between their stages: weekday codes, clock
    times, zoned date-times, the recurrence rule and event that end up in the
    iCalendar output, the calendar container, the errors that end a run, and the
    CSV row the reader hands over. */
module Records {
  import opened Wrappers
  import opened Gregorian

  /** The two-letter weekday codes of an iCalendar BYDAY list, in `date.weekday()` order. */
  datatype Weekday = MO | TU | WE | TH | FR | SA | SU {

    /** The position in `["MO", "TU", "WE", "TH", "FR", "SA", "SU"]`. */
    function Index(): int {
      match this
      case MO => 0
      case TU => 1
      case WE => 2
      case TH => 3
      case FR => 4
      case SA => 5
      case SU => 6
    }

    /** The code as the converters write it into BYDAY. */
    function Code(): string {
      match this
      case MO => "MO"
      case TU => "TU"
      case WE => "WE"
      case TH => "TH"
      case FR => "FR"
      case SA => "SA"
      case SU => "SU"
    }
  }

  type Hour = h: int | 0 <= h <= 23
  type Minute = m: int | 0 <= m <= 59

  /** A `datetime.time` with zero seconds, as `dt.time(h, m)` builds it. */
  datatype Time = Time(hour: Hour, minute: Minute)

  /** `dt.time.min`, the time exception dates are placed at. */
  const Midnight := Time(0, 0)

  /** The time of day an UNTIL bound is placed at. */
  const EndOfDay := Time(23, 59)

  /** The IANA zone name the run was configured with; its rules are not modelled. */
  datatype Zone = Zone(name: string)

  /** `datetime.combine(date, time).replace(tzinfo=zone)`. */
  datatype DateTime = DateTime(date: Date, time: Time, zone: Zone)

  /** The FREQ values of section 3.3.10 of RFC 5545. */
  datatype Frequency = Secondly | Minutely | Hourly | Daily | Weekly | Monthly | Yearly

  /** The RRULE dictionary handed to the iCalendar library: absent keys are `None`. */
  datatype RRule = RRule(freq: Frequency, interval: Option<int>, count: Option<int>, until: Option<DateTime>) {

    /** Section 3.3.10 of RFC 5545: COUNT and UNTIL must not occur in the same rule. */
    predicate HasAtMostOneBound() {
      !(count.Some? && until.Some?)
    }
  }

  /** A VEVENT: SUMMARY, optional LOCATION, DTSTART, DTEND, optional RRULE, and the
      EXDATE (section 3.8.5.1 of RFC 5545) and RDATE (section 3.8.5.2) values in the
      order they were added. */
  datatype Event = Event(
    summary: string,
    location: Option<string>,
    start: DateTime,
    end: DateTime,
    rrule: Option<RRule>,
    exdates: seq<DateTime>,
    rdates: seq<DateTime>)

  /** A VCALENDAR with its PRODID and VERSION and its events in the order added. */
  datatype Calendar = Calendar(prodId: string, version: string, events: seq<Event>)

  const CalendarVersion := "2.0"

  /** What ends a run: `SystemExit` messages and the `ValueError`, `KeyError`,
      `OverflowError` and `TypeError` the converters let escape. */
  datatype Error =
    | MissingColumns(columns: set<string>)
    | MissingHeader
    | InvalidWeekday(text: string)
    | RecurringFieldMissing(field: string)
    | NoMeetings
    | BadTimeFormat(text: string)
    | TimeOutOfRange(hour: int, minute: int)
    | DateOutOfRange(year: int, month: int, day: int)
    | BadDateFormat(text: string)
    | BadInteger(text: string)
    | KeyMissing(key: string)
    | DateOverflow

  /** One CSV record as the reader's dictionary, as its `(key, value)` items in order.
      A later item for the same key overrides an earlier one, as in a dict display
      or comprehension built from those items. */
  type Row = seq<(string, string)>

  /** `row.get(key)`: the value of the last item with that key, if any. */
  function Get(row: Row, key: string): (r: Option<string>)
    ensures r.None? <==> forall i :: 0 <= i < |row| ==> row[i].0 != key
    ensures r.Some? ==> exists i :: 0 <= i < |row| && row[i] == (key, r.value)
                                   && forall j :: i < j < |row| ==> row[j].0 != key
  {
    if |row| == 0 then None
    else if row[|row| - 1].0 == key then Some(row[|row| - 1].1)
    else Get(row[..|row| - 1], key)
  }

  /** Items after the last one with `key` do not affect its lookup. */
  lemma {:induction false} GetSkipsLater(row: Row, n: nat, key: string)
    requires n <= |row|
    requires forall i :: n <= i < |row| ==> row[i].0 != key
    ensures Get(row, key) == Get(row[..n], key)
    decreases |row| - n
  {
    if n < |row| {
      assert row[..|row| - 1][..n] == row[..n];
      GetSkipsLater(row[..|row| - 1], n, key);
    } else {
      assert row[..n] == row;
    }
  }

  /** `row.get(key) or default`: a missing key and an empty value both give `default`. */
  function GetOr(row: Row, key: string, default: string): (r: string)
    ensures (forall i :: 0 <= i < |row| ==> row[i].0 != key) ==> r == default
    ensures forall i :: 0 <= i < |row| && row[i].0 == key && (forall j :: i < j < |row| ==> row[j].0 != key) ==>
      r == (if row[i].1 == "" then default else row[i].1)
  {
    match Get(row, key)
    case Some(v) => if v == "" then default else v
    case None => default
  }

  /** `row[key]`, which raises `KeyError` when the key is absent. */
  function Lookup(row: Row, key: string): (r: Result<string, Error>)
    ensures r.Failure? <==> forall i :: 0 <= i < |row| ==> row[i].0 != key
    ensures r.Failure? ==> r.error == KeyMissing(key)
    ensures forall i :: 0 <= i < |row| && row[i].0 == key && (forall j :: i < j < |row| ==> row[j].0 != key) ==>
      r == Success(row[i].1)
  {
    match Get(row, key)
    case Some(v) => Success(v)
    case None => Failure(KeyMissing(key))
  }

  /** `datetime.date.fromisoformat`, whose accepted formats depend on the Python
      version; the converters receive it as a parameter. */
  type IsoParser = string -> Option<Date>
}
