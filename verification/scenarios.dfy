/** Worked examples proved about both converters: a weekly course as the
    flexible converter reads it, the same weekday rule in the simple converter,
    and the header and value edge cases on which the two differ. */
module Scenarios {
  import opened Wrappers
  import opened Text
  import opened Gregorian
  import opened Records
  import opened Normalizers
  import FlexibleConverter
  import SimpleConverter

  // ---------------------------------------------------------------------------
  // Field values used below

  /** 2024-09-02 is ordinal 739131, a Monday; 2024-09-06 is the Friday after. */
  lemma SeptemberSecond()
    ensures IsValidDate(2024, 9, 2) && ToOrdinal(2024, 9, 2) == 739131
    ensures DayOfWeek(739131) == MO.Index()
    ensures DayOfWeek(739131 + 4) == FR.Index()
  {
    assert DaysBeforeYear(2024) == 738885 by {
      assert 2023 / 4 == 505 && 2023 / 100 == 20 && 2023 / 400 == 5;
    }
    assert DaysBeforeMonth(2024, 9) == 244 by {
      assert IsLeapYear(2024);
    }
  }

  lemma SeptemberSecondSpelling()
    ensures Pad4(2024) + "-" + Pad2(9) + "-" + Pad2(2) == "2024-09-02"
  {
    assert Pad2(20) == "20" && Pad2(24) == "24";
    assert Pad4(2024) == "20" + "24";
    assert Pad2(9) == "09" && Pad2(2) == "02";
    assert "2024" + "-" + "09" + "-" + "02" == "2024-09-02";
  }

  lemma NineOClock()
    ensures ParseTime("09:00") == Success(Time(9, 0))
  {
    ParseTimePadded(Time(9, 0));
    assert Pad2(9) == "09" && Pad2(0) == "00";
    assert "09" + ":" + "00" == "09:00";
  }

  lemma HalfPastTen()
    ensures ParseTime("10:30") == Success(Time(10, 30))
  {
    ParseTimePadded(Time(10, 30));
    assert Pad2(10) + ":" + Pad2(30) == "10:30";
  }

  lemma DateText(iso: IsoParser)
    ensures ParseDate("2024-09-02", iso) == Success(739131)
  {
    SeptemberSecond();
    ParseIsoSpelling(2024, 9, 2, iso);
    SeptemberSecondSpelling();
  }

  lemma MondayText()
    ensures NormalizeWeekday("Mon") == Some(MO)
  {
    assert Lower("Mon") == "mon" by {
      assert LowerChar('M') == 'm' && LowerChar('o') == 'o' && LowerChar('n') == 'n';
    }
    assert "mon" in WeekdayAliases && WeekdayAliases["mon"] == MO;
    NormalizeWeekdayVariants("", "Mon", "");
    assert "" + "Mon" + "" == "Mon";
  }

  lemma FridayText()
    ensures NormalizeWeekday("Fri") == Some(FR)
  {
    assert Lower("Fri") == "fri" by {
      assert LowerChar('F') == 'f' && LowerChar('r') == 'r' && LowerChar('i') == 'i';
    }
    assert "fri" in WeekdayAliases && WeekdayAliases["fri"] == FR;
    NormalizeWeekdayVariants("", "Fri", "");
    assert "" + "Fri" + "" == "Fri";
  }

  lemma FiveText()
    ensures ParseInt("5") == Some(5)
  {
    assert FormatInt(5) == "5";
    ParseFormatInt("", 5, "");
    assert "" + "5" + "" == "5";
  }

  lemma CalculusText()
    ensures SummaryOf("Calculus") == "Calculus"
  {
    StripPadding("", "Calculus", "");
    assert "" + "Calculus" + "" == "Calculus";
  }

  lemma NoItems(time: Time, zone: Zone, iso: IsoParser)
    ensures FlexibleConverter.DatesOfText("", time, zone, iso) == []
  {
    SplitNoSeparator("", ',');
  }

  // ---------------------------------------------------------------------------
  // The flexible converter's weekly course

  /** An example course row for the flexible converter, with its columns
      already in lower case. */
  const CalculusRow: Row := [
    ("name", "Calculus"), ("weekday", "Mon"), ("start", "09:00"), ("end", "10:30"),
    ("start_date", "2024-09-02"), ("count", "5")]

  lemma CalculusKeys()
    ensures FlexibleConverter.LowerKeys(CalculusRow) == CalculusRow
  {
    var r := FlexibleConverter.LowerKeys(CalculusRow);
    assert Lower("name") == "name";
    assert Lower("weekday") == "weekday";
    assert Lower("start") == "start";
    assert Lower("end") == "end";
    assert Lower("start_date") == "start_date";
    assert Lower("count") == "count";
  }

  /** Each column of the row is looked up to its own value. */
  lemma CalculusLookup(n: nat)
    requires n < |CalculusRow|
    ensures Get(CalculusRow, CalculusRow[n].0) == Some(CalculusRow[n].1)
  {
    var key := CalculusRow[n].0;
    assert forall j :: n < j < |CalculusRow| ==> CalculusRow[j].0 != key;
    GetSkipsLater(CalculusRow, n + 1, key);
    assert CalculusRow[..n + 1][n] == CalculusRow[n];
  }

  const CalculusColumns: set<string> := {"name", "weekday", "start", "end", "start_date", "count"}

  lemma CalculusAbsent(key: string)
    requires key !in CalculusColumns
    ensures Get(CalculusRow, key) == None
  {
    assert forall i :: 0 <= i < |CalculusRow| ==> CalculusRow[i].0 in CalculusColumns;
  }

  lemma CalculusWeekdayText()
    ensures GetOr(CalculusRow, "weekday", "") == "Mon"
  {
    CalculusLookup(1);
  }

  lemma CalculusWeekday()
    ensures NormalizeWeekday(GetOr(CalculusRow, "weekday", "")) == Some(MO)
  {
    CalculusWeekdayText();
    MondayText();
  }

  lemma CalculusTexts()
    ensures Lookup(CalculusRow, "start") == Success("09:00")
    ensures Lookup(CalculusRow, "end") == Success("10:30")
    ensures Lookup(CalculusRow, "start_date") == Success("2024-09-02")
  {
    CalculusLookup(2);
    CalculusLookup(3);
    CalculusLookup(4);
  }

  lemma CalculusAnchor()
    ensures FirstDateForWeekday(739131, MO) == Success(739131)
  {
    SeptemberSecond();
  }

  lemma CalculusFields(iso: IsoParser)
    ensures FlexibleConverter.SeriesFields(CalculusRow, iso) == Success((MO, Time(9, 0), Time(10, 30), 739131))
  {
    CalculusWeekday();
    CalculusTexts();
    NineOClock();
    HalfPastTen();
    DateText(iso);
    CalculusAnchor();
  }

  lemma CalculusInterval()
    ensures FlexibleConverter.IntervalOf(CalculusRow) == Success(1)
  {
    CalculusAbsent("interval");
  }

  lemma CalculusCountText()
    ensures GetOr(CalculusRow, "count", "") == "5"
  {
    CalculusLookup(5);
  }

  lemma CalculusCount(zone: Zone, iso: IsoParser)
    ensures FlexibleConverter.Terminator(CalculusRow, zone, iso) == (Some(5), None)
  {
    CalculusCountText();
    StripPadding("", "5", "");
    assert "" + "5" + "" == "5";
    FiveText();
  }

  lemma CalculusDateText()
    ensures GetOr(CalculusRow, "date", "") == ""
  {
    CalculusAbsent("date");
  }

  lemma CalculusStartDateText()
    ensures GetOr(CalculusRow, "start_date", "") == "2024-09-02"
  {
    CalculusLookup(4);
  }

  lemma CalculusIsSeries(zone: Zone, iso: IsoParser)
    ensures FlexibleConverter.RowEvent(CalculusRow, zone, iso) == FlexibleConverter.CreateEventRecurring(CalculusRow, zone, iso)
  {
    CalculusKeys();
    CalculusDateText();
    CalculusWeekdayText();
    CalculusStartDateText();
  }

  lemma CalculusNaming()
    ensures SummaryOf(GetOr(CalculusRow, "name", "")) == "Calculus"
  {
    CalculusLookup(0);
    CalculusText();
  }

  lemma CalculusNoLocation()
    ensures Strip(GetOr(CalculusRow, "location", "")) == ""
  {
    CalculusAbsent("location");
  }

  lemma CalculusNoDates(zone: Zone, iso: IsoParser)
    ensures FlexibleConverter.ExDates(CalculusRow, zone, iso) == []
    ensures FlexibleConverter.RDates(CalculusRow, Time(9, 0), zone, iso) == []
  {
    CalculusAbsent("exceptions");
    CalculusAbsent("rdates");
    NoItems(Midnight, zone, iso);
    NoItems(Time(9, 0), zone, iso);
  }

  /** The series the course row's fields assemble into. */
  lemma CalculusEvent(zone: Zone, iso: IsoParser)
    ensures FlexibleConverter.CreateEventRecurring(CalculusRow, zone, iso)
         == Success(Event("Calculus", None,
                          DateTime(739131, Time(9, 0), zone), DateTime(739131, Time(10, 30), zone),
                          Some(RRule(Weekly, Some(1), Some(5), None)), [], []))
  {
    CalculusFields(iso);
    CalculusInterval();
    CalculusCount(zone, iso);
    CalculusNaming();
    CalculusNoLocation();
    CalculusNoDates(zone, iso);
  }

  /** The example course row, with a weekday, times, a start date and a count
      of 5, becomes a weekly series of five Monday meetings from 2024-09-02,
      09:00 to 10:30, with no exception or extra dates. */
  lemma CalculusSeries(zone: Zone, iso: IsoParser)
    ensures FlexibleConverter.RowEvent(CalculusRow, zone, iso)
         == Success(Event("Calculus", None,
                          DateTime(739131, Time(9, 0), zone), DateTime(739131, Time(10, 30), zone),
                          Some(RRule(Weekly, Some(1), Some(5), None)), [], []))
  {
    CalculusIsSeries(zone, iso);
    CalculusEvent(zone, iso);
  }

  // ---------------------------------------------------------------------------
  // Interval and terminator edge cases

  lemma WordTwo()
    ensures Strip("two") == "two" && ParseInt("two") == None
  {
    StripPadding("", "two", "");
    assert "" + "two" + "" == "two";
    assert !IsDigit('t');
  }

  lemma WordFive()
    ensures Strip("five") == "five" && ParseInt("five") == None
  {
    StripPadding("", "five", "");
    assert "" + "five" + "" == "five";
    assert !IsDigit('f');
  }

  /** An interval of 0 is not rejected: the rule is built with INTERVAL=0. */
  lemma ZeroInterval()
    ensures FlexibleConverter.IntervalOf([("interval", "0")]) == Success(0)
  {
    assert FormatInt(0) == "0";
    assert "" + "0" + "" == "0";
    FlexibleConverter.IntervalOfLiteral([("interval", "0")], "", 0, "");
  }

  /** A negative interval is not rejected either. */
  lemma NegativeInterval()
    ensures FlexibleConverter.IntervalOf([("interval", " -2 ")]) == Success(-2)
  {
    assert FormatInt(-2) == "-2";
    assert " " + "-2" + " " == " -2 ";
    FlexibleConverter.IntervalOfLiteral([("interval", " -2 ")], " ", -2, " ");
  }

  /** A word in the interval column ends the run. */
  lemma WordInterval()
    ensures FlexibleConverter.IntervalOf([("interval", "two")]) == Failure(BadInteger("two"))
  {
    WordTwo();
    assert GetOr([("interval", "two")], "interval", "") == "two";
  }

  /** A count that is not an integer is dropped silently, and the end date is
      then not consulted: the series has no bound at all. */
  lemma WordCountIsUnbounded(zone: Zone, iso: IsoParser)
    ensures FlexibleConverter.Terminator([("count", "five"), ("end_date", "2024-12-20")], zone, iso) == (None, None)
  {
    var row: Row := [("count", "five"), ("end_date", "2024-12-20")];
    GetSkipsLater(row, 1, "count");
    assert row[..1] == [("count", "five")];
    WordFive();
  }

  // ---------------------------------------------------------------------------
  // Headers

  lemma CapitalNames()
    ensures Lower("Name") == "name" && Lower("Start") == "start" && Lower("End") == "end"
  {
    assert LowerChar('N') == 'n' && LowerChar('S') == 's' && LowerChar('E') == 'e';
    assert Lower("Name") == "name";
    assert Lower("Start") == "start";
  }

  lemma PlainNames()
    ensures Lower("name") == "name" && Lower("end") == "end" && Lower("date") == "date"
    ensures Lower("start") == "start" && Lower(" start") == " start"
  {
    assert Lower("name") == "name";
    assert Lower("start") == "start";
  }

  lemma StrippedName()
    ensures Strip("Name") == "Name"
  {
    StripTrimmed("Name");
  }

  lemma StrippedStart()
    ensures Strip("Start") == "Start"
  {
    StripTrimmed("Start");
  }

  lemma StrippedEnd()
    ensures Strip("End") == "End"
  {
    StripTrimmed("End");
  }

  lemma StrippedCapitalNames()
    ensures Strip("Name") == "Name" && Strip("Start") == "Start" && Strip("End") == "End"
  {
    StrippedName();
    StrippedStart();
    StrippedEnd();
  }

  lemma StrippedPlainNames()
    ensures Strip("name") == "name" && Strip("end") == "end"
  {
    StripTrimmed("name");
    StripTrimmed("end");
  }

  lemma StrippedPaddedStart()
    ensures Strip(" start") == "start"
  {
    assert " " + "start" + "" == " start";
    StripPadding(" ", "start", "");
  }

  /** The flexible converter strips and lower-cases header names before the
      check, so capitalised names pass it. */
  lemma CapitalisedHeadersFlexible()
    ensures FlexibleConverter.MissingBase(Some(["Name", "Start", "End"])) == {}
  {
    var names := ["Name", "Start", "End"];
    CapitalNames();
    StrippedCapitalNames();
    assert Lower(Strip(names[0])) == "name";
    assert Lower(Strip(names[1])) == "start";
    assert Lower(Strip(names[2])) == "end";
  }

  /** The simple converter compares header names as written, so the same
      capitalisation fails its check on every required column. */
  lemma CapitalisedHeadersSimple()
    ensures SimpleConverter.CheckHeader(Some(["Name", "Weekday", "Start", "End", "Location"]))
         == Failure(MissingColumns(SimpleConverter.RequiredColumns))
  {
    var names := ["Name", "Weekday", "Start", "End", "Location"];
    assert forall i :: 0 <= i < |names| ==> 'A' <= names[i][0] <= 'Z';
    assert forall c :: c in SimpleConverter.RequiredColumns ==> 'a' <= c[0] <= 'z';
    assert SimpleConverter.MissingColumnsOf(names) == SimpleConverter.RequiredColumns;
  }

  /** The flexible header check strips names but the row lookups do not: a header
      ` start` passes the check. */
  lemma PaddedHeaderPassesCheck()
    ensures FlexibleConverter.MissingBase(Some(["name", " start", "end", "date"])) == {}
  {
    var names := ["name", " start", "end", "date"];
    PlainNames();
    StrippedPlainNames();
    StrippedPaddedStart();
    assert Lower(Strip(names[0])) == "name";
    assert Lower(Strip(names[1])) == "start";
    assert Lower(Strip(names[2])) == "end";
  }

  const PaddedRow: Row := [("name", "Quiz"), (" start", "09:00"), ("end", "10:30"), ("date", "2024-09-02")]

  lemma PaddedRowKeys()
    ensures FlexibleConverter.LowerKeys(PaddedRow) == PaddedRow
    ensures Get(PaddedRow, "date") == Some("2024-09-02")
    ensures Get(PaddedRow, "start") == None
  {
    PlainNames();
    assert forall i :: 0 <= i < |PaddedRow| ==> PaddedRow[i].0 != "start";
  }

  /** ... and then a dated row under that header fails on `row['start']`. */
  lemma PaddedHeaderFailsLookup(zone: Zone, iso: IsoParser)
    ensures FlexibleConverter.RowEvent(PaddedRow, zone, iso) == Failure(KeyMissing("start"))
  {
    PaddedRowKeys();
    assert GetOr(FlexibleConverter.LowerKeys(PaddedRow), "date", "") == "2024-09-02";
  }

  // ---------------------------------------------------------------------------
  // The simple converter's lab meeting

  const LabRow: Row := [
    ("name", "Lab"), ("weekday", "Fri"), ("start", "14:00"), ("end", "16:00"), ("location", "Rm 301")]

  lemma LabLookup(n: nat)
    requires n < |LabRow|
    ensures Get(LabRow, LabRow[n].0) == Some(LabRow[n].1)
  {
    var key := LabRow[n].0;
    assert forall j :: n < j < |LabRow| ==> LabRow[j].0 != key;
    GetSkipsLater(LabRow, n + 1, key);
    assert LabRow[..n + 1][n] == LabRow[n];
  }

  lemma LabClockSpellings()
    ensures Pad2(14) + ":" + Pad2(0) == "14:00"
    ensures Pad2(16) + ":" + Pad2(0) == "16:00"
  {
    assert Pad2(14) == "14" && Pad2(16) == "16" && Pad2(0) == "00";
    assert "14" + ":" + "00" == "14:00";
    assert "16" + ":" + "00" == "16:00";
  }

  lemma LabTimes()
    ensures ParseTime("14:00") == Success(Time(14, 0))
    ensures ParseTime("16:00") == Success(Time(16, 0))
  {
    ParseTimePadded(Time(14, 0));
    ParseTimePadded(Time(16, 0));
    LabClockSpellings();
  }

  lemma LabTexts()
    ensures SummaryOf("Lab") == "Lab"
    ensures Strip("Rm 301") == "Rm 301"
  {
    StripTrimmed("Lab");
    StripTrimmed("Rm 301");
  }

  lemma LabTextColumns()
    ensures GetOr(LabRow, "name", "") == "Lab"
    ensures GetOr(LabRow, "weekday", "") == "Fri"
    ensures GetOr(LabRow, "location", "") == "Rm 301"
  {
    LabLookup(0);
    LabLookup(1);
    LabLookup(4);
  }

  lemma LabTimeColumns()
    ensures GetOr(LabRow, "start", "") == "14:00"
    ensures GetOr(LabRow, "end", "") == "16:00"
  {
    LabLookup(2);
    LabLookup(3);
  }

  /** The lab row reads as a Friday meeting from 14:00 to 16:00 in room "Rm 301". */
  lemma LabMeeting()
    ensures SimpleConverter.ReadRow(LabRow) == Success(SimpleConverter.CourseMeeting("Lab", FR, Time(14, 0), Time(16, 0), "Rm 301"))
  {
    LabTextColumns();
    LabTimeColumns();
    FridayText();
    LabTimes();
    LabTexts();
  }

  /** The first Friday on or after Monday 2024-09-02 is 2024-09-06. */
  lemma LabAnchor()
    ensures FirstDateForWeekday(739131, FR) == Success(739135)
  {
    SeptemberSecond();
    assert DayOfWeek(739132) == 1 && DayOfWeek(739133) == 2 && DayOfWeek(739134) == 3;
  }

  /** The example lab row of the simple converter: with the term starting on
      2024-09-02 and 12 weeks, the lab becomes a weekly series of 12 meetings
      whose first one is Friday 2024-09-06. */
  lemma LabSeries(zone: Zone)
    ensures SimpleConverter.MeetingEvent(SimpleConverter.CourseMeeting("Lab", FR, Time(14, 0), Time(16, 0), "Rm 301"), 739131, 12, zone)
         == Success(Event("Lab", Some("Rm 301"),
                          DateTime(739135, Time(14, 0), zone), DateTime(739135, Time(16, 0), zone),
                          Some(RRule(Weekly, None, Some(12), None)), [], []))
  {
    LabAnchor();
  }
}
