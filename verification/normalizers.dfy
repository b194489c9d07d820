/** The field normalisers both converters share: the weekday alias table and
    `normalize_weekday`, the `parse_hhmm` clock parser, the flexible converter's
    `parse_date`, the anchor-date computation `first_date_for_weekday`, and the
    summary and location clean-ups applied to every row. The alias table,
    `normalize_weekday` and `parse_hhmm` are written out identically in the two
    converters. The anchor computation has the same logic in both, under the
    names `_first_date_for_weekday` and `first_date_for_weekday`. Here each is
    defined once. */
module Normalizers {
  import opened Wrappers
  import opened Text
  import opened Gregorian
  import opened Records

  // ---------------------------------------------------------------------------
  // Weekday aliases

  /** `WEEKDAY_ALIASES`: English names and abbreviations, the ISO numbers 1..7
      and the Chinese names, each already lower-cased and trimmed. */
  const WeekdayAliases: map<string, Weekday> := map[
    "mon" := MO, "monday" := MO, "1" := MO,
    "tue" := TU, "tues" := TU, "tuesday" := TU, "2" := TU,
    "wed" := WE, "weds" := WE, "wednesday" := WE, "3" := WE,
    "thu" := TH, "thur" := TH, "thurs" := TH, "thursday" := TH, "4" := TH,
    "fri" := FR, "friday" := FR, "5" := FR,
    "sat" := SA, "saturday" := SA, "6" := SA,
    "sun" := SU, "sunday" := SU, "7" := SU,
    "周一" := MO, "周二" := TU, "周三" := WE, "周四" := TH, "周五" := FR, "周六" := SA, "周日" := SU
  ]

  /** The lookup key: runs of whitespace collapsed to one space, then stripped,
      then lower-cased. */
  function WeekdayKey(text: string): string {
    Lower(Strip(CollapseSpaces(text)))
  }

  /** `normalize_weekday`: the code for a known alias, `None` (not an error) otherwise. */
  function NormalizeWeekday(text: string): Option<Weekday> {
    var key := WeekdayKey(text);
    if key in WeekdayAliases then Some(WeekdayAliases[key]) else None
  }

  /** A key as it sits in the table: non-empty, no whitespace, no upper case. */
  predicate IsCanonicalKey(k: string) {
    |k| > 0 && forall c :: c in k ==> !IsSpace(c) && !IsUpper(c)
  }

  lemma AliasKeysAreCanonical()
    ensures forall k :: k in WeekdayAliases ==> IsCanonicalKey(k)
  {
  }

  lemma CanonicalKeyFacts(k: string)
    requires IsCanonicalKey(k)
    ensures NoSpace(k) && Lower(k) == k
  {
    assert forall i :: 0 <= i < |k| ==> k[i] in k;
  }

  /** A whitespace run is collapsed to one space or, when empty, to nothing. */
  lemma CollapseSpacePadding(q: string)
    requires AllSpace(q)
    ensures CollapseSpaces(q) == (if q == [] then [] else " ")
  {
    if q != [] {
      CollapseSpaceRun(q, []);
      assert q + [] == q;
    }
  }

  /** The key of one whitespace-free word with whitespace around it is that word,
      lower-cased. */
  lemma WeekdayKeyOfWord(p: string, t: string, q: string)
    requires AllSpace(p) && AllSpace(q)
    requires |t| > 0 && NoSpace(t)
    ensures WeekdayKey(p + t + q) == Lower(t)
  {
    var pad: string := if p == [] then "" else " ";
    var tail: string := if q == [] then "" else " ";
    CollapsePaddedWord(p, t, q);
    CollapseSpacePadding(q);
    assert CollapseSpaces(p + t + q) == pad + t + tail;
    assert Trimmed(t);
    StripPadding(pad, t, tail);
  }

  /** Case and whitespace variants of an alias name the same weekday: any spelling
      that lower-cases to an alias, with any whitespace around it. */
  lemma NormalizeWeekdayVariants(p: string, t: string, q: string)
    requires AllSpace(p) && AllSpace(q)
    requires Lower(t) in WeekdayAliases
    ensures NormalizeWeekday(p + t + q) == Some(WeekdayAliases[Lower(t)])
  {
    var k := Lower(t);
    AliasKeysAreCanonical();
    CanonicalKeyFacts(k);
    LowerKeepsSpaces(t);
    assert NoSpace(t) by {
      forall i | 0 <= i < |t| ensures !IsSpace(t[i]) {
        assert !IsSpace(k[i]);
      }
    }
    WeekdayKeyOfWord(p, t, q);
  }

  /** A blank or all-whitespace cell names no weekday. */
  lemma NormalizeWeekdayBlank(text: string)
    requires AllSpace(text)
    ensures NormalizeWeekday(text) == None
  {
    CollapseSpacePadding(text);
    StripPadding(CollapseSpaces(text), "", "");
    assert CollapseSpaces(text) + "" + "" == CollapseSpaces(text);
    assert WeekdayKey(text) == Lower("") == "";
    AliasKeysAreCanonical();
  }

  /** A word with whitespace before it keeps one space of that padding, if
      any, when collapsed. */
  lemma CollapsePaddedWord(p: string, a: string, rest: string)
    requires AllSpace(p) && |a| > 0 && NoSpace(a)
    ensures CollapseSpaces(p + a + rest) == (if p == [] then "" else " ") + a + CollapseSpaces(rest)
  {
    var y := a + rest;
    assert p + a + rest == p + y;
    if p == [] {
      assert p + y == y;
      CollapseNoSpacePrefix(a, rest);
    } else {
      assert y[0] == a[0];
      CollapseSpaceRun(p, y);
      CollapseWordPrefix(a, rest);
    }
  }

  lemma CollapseWordPrefix(a: string, rest: string)
    requires NoSpace(a)
    ensures " " + CollapseSpaces(a + rest) == " " + a + CollapseSpaces(rest)
  {
    CollapseNoSpacePrefix(a, rest);
  }

  /** A trimmed text with whitespace inside it is a word, then a part that
      opens with whitespace and closes without it. */
  lemma WordThenSpace(t: string) returns (a: string, r: string)
    requires Trimmed(t) && !NoSpace(t)
    ensures t == a + r && |a| > 0 && NoSpace(a)
    ensures |r| > 1 && IsSpace(r[0]) && !IsSpace(r[|r| - 1])
  {
    var j := LeadingWord(t);
    a, r := t[..j], t[j..];
    assert NoSpace(a);
    assert r[0] == t[j] && r[|r| - 1] == t[|t| - 1];
  }

  /** When the stripped text has whitespace inside it, so does the key: the
      collapse step shortens an inner run to one space but never removes it. */
  lemma InnerSpaceKey(p: string, t: string, q: string)
    requires AllSpace(p) && AllSpace(q)
    requires Trimmed(t) && !NoSpace(t)
    ensures !IsCanonicalKey(WeekdayKey(p + t + q))
  {
    var a, r := WordThenSpace(t);
    var d := CollapseSpaces(r + q);
    assert (r + q)[|r| - 1] == r[|r| - 1];
    CollapseKeepsWord(r + q, |r| - 1);
    var e :| 0 <= e < |d| && !IsSpace(d[e]);
    var pad: string := if p == [] then "" else " ";
    assert p + t + q == p + a + (r + q);
    CollapsePaddedWord(p, a, r + q);
    StripKeepsInnerSpace(pad, a, d, e);
    var key := WeekdayKey(p + t + q);
    LowerKeepsSpaces(Strip(pad + a + d));
    assert IsSpace(key[|a|]) && key[|a|] in key;
  }

  /** `normalize_weekday` without its collapse step: the text, stripped and
      lower-cased, is looked up as it stands. No alias holds whitespace, so
      collapsing inner runs never turns a miss into a hit or back. */
  lemma NormalizeWeekdayByStrip(text: string)
    ensures NormalizeWeekday(text) ==
            (if Lower(Strip(text)) in WeekdayAliases then Some(WeekdayAliases[Lower(Strip(text))]) else None)
  {
    var p, q := StripSplit(text);
    var t := Strip(text);
    AliasKeysAreCanonical();
    LowerKeepsSpaces(t);
    if t == [] {
      assert AllSpace(text) by {
        assert text == p + q;
      }
      NormalizeWeekdayBlank(text);
      assert Lower(t) == "";
    } else if NoSpace(t) {
      WeekdayKeyOfWord(p, t, q);
    } else {
      InnerSpaceKey(p, t, q);
      assert !IsCanonicalKey(Lower(t)) by {
        var i :| 0 <= i < |t| && IsSpace(t[i]);
        assert Lower(t)[i] in Lower(t);
      }
    }
  }

  /** Only an alias, in any case and with whitespace around it, names a
      weekday, and it names the alias's weekday. */
  lemma NormalizeWeekdayOnlyAliases(text: string, w: Weekday)
    ensures NormalizeWeekday(text) == Some(w) ==>
              exists p, t, q :: && AllSpace(p) && AllSpace(q) && text == p + t + q
                                && Lower(t) in WeekdayAliases && WeekdayAliases[Lower(t)] == w
  {
    NormalizeWeekdayByStrip(text);
    var p, q := StripSplit(text);
    var t := Strip(text);
    assert text == p + t + q;
  }

  /** Every alias, exactly as it sits in the table, names its own weekday. */
  lemma NormalizeAliasKey(k: string)
    requires k in WeekdayAliases
    ensures NormalizeWeekday(k) == Some(WeekdayAliases[k])
  {
    AliasKeysAreCanonical();
    CanonicalKeyFacts(k);
    NormalizeWeekdayVariants("", k, "");
    assert "" + k + "" == k;
  }

  /** The table maps the ISO 8601 number of each weekday to it. */
  lemma IsoNumberIsAlias(w: Weekday)
    ensures FormatInt(w.Index() + 1) in WeekdayAliases
    ensures WeekdayAliases[FormatInt(w.Index() + 1)] == w
  {
    var s := FormatInt(w.Index() + 1);
    assert s == [DigitChar(w.Index() + 1)];
    match w {
      case MO => assert s == "1";
      case TU => assert s == "2";
      case WE => assert s == "3";
      case TH => assert s == "4";
      case FR => assert s == "5";
      case SA => assert s == "6";
      case SU => assert s == "7";
    }
  }

  /** Every weekday is reached from its ISO 8601 number, 1 for Monday to 7 for Sunday. */
  lemma NormalizeIsoWeekdayNumber(w: Weekday)
    ensures NormalizeWeekday(FormatInt(w.Index() + 1)) == Some(w)
  {
    IsoNumberIsAlias(w);
    NormalizeAliasKey(FormatInt(w.Index() + 1));
  }

  /** Lower-casing the text first never changes the weekday it names, whether
      or not it names one. */
  lemma NormalizeWeekdayIgnoresCase(text: string)
    ensures NormalizeWeekday(Lower(text)) == NormalizeWeekday(text)
  {
    var c := CollapseSpaces(text);
    CollapseLower(text);
    StripLower(c);
    assert Lower(Lower(Strip(c))) == Lower(Strip(c));
  }

  /** The lookup key of a two-letter code is two characters long and starts
      with a small ASCII letter. */
  lemma CodeKey(w: Weekday)
    ensures |WeekdayKey(w.Code())| == 2 && 'a' <= WeekdayKey(w.Code())[0] <= 'z'
  {
    var c := w.Code();
    assert |c| == 2 && IsUpper(c[0]) && IsUpper(c[1]);
    WeekdayKeyOfWord("", c, "");
    assert "" + c + "" == c;
  }

  /** The codes themselves are not aliases: none of `"MO"` to `"SU"` is a
      weekday name, so a code read back from a calendar is rejected. */
  lemma CodesAreNotAliases(w: Weekday)
    ensures NormalizeWeekday(w.Code()) == None
  {
    CodeKey(w);
    TwoCharacterAliases();
  }

  /** The only two-character aliases are the Chinese names. */
  lemma TwoCharacterAliases()
    ensures forall k :: k in WeekdayAliases ==> |k| != 2 || k[0] == '周'
  {
  }

  // ---------------------------------------------------------------------------
  // parse_hhmm

  /** The text `(\d{1,2}):(\d{2})` matches in full. */
  predicate IsClockText(s: string) {
    && (|s| == 4 || |s| == 5)
    && s[|s| - 3] == ':'
    && AllDigits(s[..|s| - 3])
    && AllDigits(s[|s| - 2..])
  }

  /** `parse_hhmm`: strip, match `H:MM` or `HH:MM`, then `dt.time(h, m)`, which
      rejects an hour above 23 or a minute above 59. */
  function ParseTime(text: string): Result<Time, Error> {
    var s := Strip(text);
    if !IsClockText(s) then Failure(BadTimeFormat(text))
    else
      var h := DigitsValue(s[..|s| - 3]);
      var m := DigitsValue(s[|s| - 2..]);
      if h <= 23 && m <= 59 then Success(Time(h, m)) else Failure(TimeOutOfRange(h, m))
  }

  /** The texts that denote `t`: a two-digit hour, or a one-digit hour below 10,
      then a colon and a two-digit minute. */
  function TimeSpellings(t: Time): set<string> {
    {Pad2(t.hour) + ":" + Pad2(t.minute)}
      + (if t.hour < 10 then {[DigitChar(t.hour)] + ":" + Pad2(t.minute)} else {})
  }

  /** Each spelling of `t` parses to `t`. */
  lemma ParseTimeOfSpelling(text: string, t: Time)
    requires Strip(text) in TimeSpellings(t)
    ensures ParseTime(text) == Success(t)
  {
    var s := Strip(text);
    Pad2Value(t.minute);
    if s == Pad2(t.hour) + ":" + Pad2(t.minute) {
      Pad2Value(t.hour);
      assert s[..|s| - 3] == Pad2(t.hour);
      assert s[|s| - 2..] == Pad2(t.minute);
    } else {
      var h := [DigitChar(t.hour)];
      assert s == h + ":" + Pad2(t.minute);
      assert s[..|s| - 3] == h;
      assert s[|s| - 2..] == Pad2(t.minute);
      assert h[..0] == [];
    }
  }

  /** Whatever parses as `t` is one of `t`'s spellings. */
  lemma SpellingOfParsedTime(text: string, t: Time)
    requires ParseTime(text) == Success(t)
    ensures Strip(text) in TimeSpellings(t)
  {
    var s := Strip(text);
    var hs := s[..|s| - 3];
    var ms := s[|s| - 2..];
    TwoDigits(ms);
    assert s == hs + ":" + ms;
    if |s| == 5 {
      TwoDigits(hs);
      assert s == Pad2(t.hour) + ":" + Pad2(t.minute);
    } else {
      assert |hs| == 1 && hs[..0] == [];
      assert t.hour == DigitValue(hs[0]);
      assert DigitChar(DigitValue(hs[0])) == hs[0];
      assert hs == [DigitChar(t.hour)];
      assert s == [DigitChar(t.hour)] + ":" + Pad2(t.minute);
    }
  }

  /** `parse_hhmm` succeeds with `t` exactly when the stripped text is one of
      `t`'s spellings: any other text, including an hour past 23 or a minute past
      59, is an error. */
  lemma ParseTimeExactly(text: string, t: Time)
    ensures ParseTime(text) == Success(t) <==> Strip(text) in TimeSpellings(t)
  {
    if ParseTime(text) == Success(t) {
      SpellingOfParsedTime(text, t);
    }
    if Strip(text) in TimeSpellings(t) {
      ParseTimeOfSpelling(text, t);
    }
  }

  /** The zero-padded `HH:MM` rendering reads back as the same time. */
  lemma ParseTimeRoundTrip(p: string, t: Time, q: string)
    requires AllSpace(p) && AllSpace(q)
    ensures ParseTime(p + Pad2(t.hour) + ":" + Pad2(t.minute) + q) == Success(t)
  {
    var x := Pad2(t.hour) + ":" + Pad2(t.minute);
    assert p + Pad2(t.hour) + ":" + Pad2(t.minute) + q == p + x + q;
    assert !IsSpace(x[0]) && !IsSpace(x[|x| - 1]);
    StripPadding(p, x, q);
    assert x in TimeSpellings(t);
    ParseTimeExactly(p + x + q, t);
  }

  /** The zero-padded `HH:MM` rendering of any time parses back to that time. */
  lemma ParseTimePadded(t: Time)
    ensures ParseTime(Pad2(t.hour) + ":" + Pad2(t.minute)) == Success(t)
  {
    ParseTimeRoundTrip("", t, "");
    assert "" + Pad2(t.hour) + ":" + Pad2(t.minute) + "" == Pad2(t.hour) + ":" + Pad2(t.minute);
  }

  // ---------------------------------------------------------------------------
  // parse_date

  predicate IsDateSeparator(c: char) {
    c == '-' || c == '.' || c == '/'
  }

  /** `s.replace(".", "-").replace("/", "-")`. */
  function NormalizeSeparators(s: string): string {
    seq(|s|, i requires 0 <= i < |s| => if IsDateSeparator(s[i]) then '-' else s[i])
  }

  /** Between `lo` and `hi` ASCII digits. */
  predicate IsNumeral(s: string, lo: nat, hi: nat) {
    lo <= |s| <= hi && AllDigits(s)
  }

  /** `dt.date(y, m, d)`, which raises `ValueError` for an impossible date. */
  function MakeDate(y: int, m: int, d: int): Result<Date, Error> {
    if IsValidDate(y, m, d) then Success(ToOrdinal(y, m, d)) else Failure(DateOutOfRange(y, m, d))
  }

  /** Distinct calendar dates never give the same `date`. */
  lemma MakeDateInjective(y: int, m: int, d: int, y': int, m': int, d': int)
    requires MakeDate(y, m, d).Success?
    requires MakeDate(y, m, d) == MakeDate(y', m', d')
    ensures y == y' && m == m' && d == d'
  {
    ToOrdinalInjective(y, m, d, y', m', d');
  }

  /** `parse_date`: strip and unify the separators, then read `YYYY-M-D`, else
      `D-M-YYYY`, else hand the text to `date.fromisoformat`. A text of the first
      shape is never tried against the others, even when it is not a real date. */
  function ParseDate(text: string, iso: IsoParser): Result<Date, Error> {
    var s := NormalizeSeparators(Strip(text));
    var parts := Split(s, '-');
    if |parts| == 3 && IsNumeral(parts[0], 4, 4) && IsNumeral(parts[1], 1, 2) && IsNumeral(parts[2], 1, 2) then
      MakeDate(DigitsValue(parts[0]), DigitsValue(parts[1]), DigitsValue(parts[2]))
    else if |parts| == 3 && IsNumeral(parts[0], 1, 2) && IsNumeral(parts[1], 1, 2) && IsNumeral(parts[2], 4, 4) then
      MakeDate(DigitsValue(parts[2]), DigitsValue(parts[1]), DigitsValue(parts[0]))
    else
      match iso(s)
      case Some(d) => Success(d)
      case None => Failure(BadDateFormat(s))
  }

  /** Some character is neither an ASCII digit nor `-`: no text of three
      digit fields joined by `-` looks like that. */
  predicate HasNonDateChar(s: string) {
    exists i :: 0 <= i < |s| && !IsDigit(s[i]) && s[i] != '-'
  }

  /** A text matches neither pattern when it has no `-`, `.` or `/`, or when,
      once its separators are unified, it holds a character that is neither a
      digit nor `-` (`2024-W36-1`, `2024-002T`, `Sept 2`). It then goes to
      `date.fromisoformat` stripped and separator-mapped, and what that rejects
      is an error naming exactly that text. */
  lemma ParseDateOtherwiseIso(text: string, iso: IsoParser)
    requires || (forall i :: 0 <= i < |Strip(text)| ==> !IsDateSeparator(Strip(text)[i]))
             || HasNonDateChar(NormalizeSeparators(Strip(text)))
    ensures iso(NormalizeSeparators(Strip(text))).Some? ==>
              ParseDate(text, iso) == Success(iso(NormalizeSeparators(Strip(text))).value)
    ensures iso(NormalizeSeparators(Strip(text))).None? ==>
              ParseDate(text, iso) == Failure(BadDateFormat(NormalizeSeparators(Strip(text))))
  {
    var s := NormalizeSeparators(Strip(text));
    if forall i :: 0 <= i < |Strip(text)| ==> !IsDateSeparator(Strip(text)[i]) {
      assert s == Strip(text);
      assert '-' !in s;
      SplitNoSeparator(s, '-');
    } else {
      NonDateCharSplit(s);
    }
    ParseDateFallback(text, iso);
  }

  /** Unless the mapped text splits into three digit fields, `parse_date`
      hands it to `date.fromisoformat`. */
  lemma ParseDateFallback(text: string, iso: IsoParser)
    requires var parts := Split(NormalizeSeparators(Strip(text)), '-');
             !(|parts| == 3 && AllDigits(parts[0]) && AllDigits(parts[1]) && AllDigits(parts[2]))
    ensures iso(NormalizeSeparators(Strip(text))).Some? ==>
              ParseDate(text, iso) == Success(iso(NormalizeSeparators(Strip(text))).value)
    ensures iso(NormalizeSeparators(Strip(text))).None? ==>
              ParseDate(text, iso) == Failure(BadDateFormat(NormalizeSeparators(Strip(text))))
  {
  }

  /** A text with a character other than a digit or `-` does not split on `-`
      into three digit fields. */
  lemma NonDateCharSplit(s: string)
    requires HasNonDateChar(s)
    ensures var parts := Split(s, '-');
            !(|parts| == 3 && AllDigits(parts[0]) && AllDigits(parts[1]) && AllDigits(parts[2]))
  {
    var parts := Split(s, '-');
    if |parts| == 3 && AllDigits(parts[0]) && AllDigits(parts[1]) && AllDigits(parts[2]) {
      JoinOfDigits(parts, '-');
      assert false;
    }
  }

  /** The separators are not whitespace, so unifying them keeps every
      character's whitespace class. */
  lemma SeparatorsKeepSpaces(s: string)
    ensures |NormalizeSeparators(s)| == |s|
    ensures forall i :: 0 <= i < |s| ==> (IsSpace(NormalizeSeparators(s)[i]) <==> IsSpace(s[i]))
  {
  }

  lemma {:induction false} LeadingSpacesSeparators(s: string)
    ensures LeadingSpaces(NormalizeSeparators(s)) == LeadingSpaces(s)
    decreases |s|
  {
    SeparatorsKeepSpaces(s);
    if |s| > 0 && IsSpace(s[0]) {
      assert NormalizeSeparators(s)[1..] == NormalizeSeparators(s[1..]);
      LeadingSpacesSeparators(s[1..]);
    }
  }

  lemma {:induction false} TrailingSpacesSeparators(s: string)
    ensures TrailingSpaces(NormalizeSeparators(s)) == TrailingSpaces(s)
    decreases |s|
  {
    SeparatorsKeepSpaces(s);
    if |s| > 0 && IsSpace(s[|s| - 1]) {
      assert NormalizeSeparators(s)[..|s| - 1] == NormalizeSeparators(s[..|s| - 1]);
      TrailingSpacesSeparators(s[..|s| - 1]);
    }
  }

  lemma LStripSeparators(s: string)
    ensures LStrip(NormalizeSeparators(s)) == NormalizeSeparators(LStrip(s))
  {
    LeadingSpacesSeparators(s);
  }

  lemma RStripSeparators(s: string)
    ensures RStrip(NormalizeSeparators(s)) == NormalizeSeparators(RStrip(s))
  {
    TrailingSpacesSeparators(s);
  }

  /** Stripping and unifying the separators can be done in either order. */
  lemma StripSeparators(s: string)
    ensures Strip(NormalizeSeparators(s)) == NormalizeSeparators(Strip(s))
  {
    LStripSeparators(s);
    RStripSeparators(LStrip(s));
  }

  /** Unifying the separators twice is unifying them once. */
  lemma NormalizeSeparatorsIdempotent(s: string)
    ensures NormalizeSeparators(NormalizeSeparators(s)) == NormalizeSeparators(s)
  {
  }

  /** `parse_date` reads a text exactly as it reads the text with `.` and `/`
      already turned into `-`: the numeric patterns and the `date.fromisoformat`
      fallback all see the unified text. */
  lemma ParseDateSeparatorsAgree(text: string, iso: IsoParser)
    ensures ParseDate(text, iso) == ParseDate(NormalizeSeparators(text), iso)
  {
    StripSeparators(text);
    NormalizeSeparatorsIdempotent(Strip(text));
  }

  lemma NormalizeSeparatorsConcat(x: string, y: string)
    ensures NormalizeSeparators(x + y) == NormalizeSeparators(x) + NormalizeSeparators(y)
  {
  }

  lemma NormalizeSeparatorsDigits(s: string)
    requires AllDigits(s)
    ensures NormalizeSeparators(s) == s && '-' !in s
  {
  }

  /** Unifying the separators between three numerals gives them `-` separators. */
  lemma NormalizeDateText(a: string, s1: char, b: string, s2: char, c: string)
    requires AllDigits(a) && AllDigits(b) && AllDigits(c)
    requires IsDateSeparator(s1) && IsDateSeparator(s2)
    ensures NormalizeSeparators(a + [s1] + b + [s2] + c) == a + ['-'] + b + ['-'] + c
  {
    NormalizeSeparatorsDigits(a);
    NormalizeSeparatorsDigits(b);
    NormalizeSeparatorsDigits(c);
    NormalizeSeparatorsConcat(a + [s1] + b + [s2], c);
    NormalizeSeparatorsConcat(a + [s1] + b, [s2]);
    NormalizeSeparatorsConcat(a + [s1], b);
    NormalizeSeparatorsConcat(a, [s1]);
  }

  /** Splitting three dash-free parts joined by dashes gives the parts back. */
  lemma SplitDateText(a: string, b: string, c: string)
    requires '-' !in a && '-' !in b && '-' !in c
    ensures Split(a + ['-'] + b + ['-'] + c, '-') == [a, b, c]
  {
    var tail := b + ['-'] + c;
    assert a + ['-'] + b + ['-'] + c == a + ['-'] + tail;
    SplitSeparated(a, '-', tail);
    SplitSeparated(b, '-', c);
    SplitNoSeparator(c, '-');
  }

  /** Three numerals joined by any two of `-`, `.`, `/`, with whitespace around
      them, normalise and split back into those three numerals. */
  lemma DateFields(p: string, a: string, s1: char, b: string, s2: char, c: string, q: string)
    requires AllSpace(p) && AllSpace(q)
    requires |a| > 0 && |c| > 0 && AllDigits(a) && AllDigits(b) && AllDigits(c)
    requires IsDateSeparator(s1) && IsDateSeparator(s2)
    ensures Split(NormalizeSeparators(Strip(p + a + [s1] + b + [s2] + c + q)), '-') == [a, b, c]
  {
    var x := a + [s1] + b + [s2] + c;
    assert p + a + [s1] + b + [s2] + c + q == p + x + q;
    assert x[0] == a[0] && x[|x| - 1] == c[|c| - 1];
    assert IsDigit(a[0]) && IsDigit(c[|c| - 1]);
    StripPadding(p, x, q);
    NormalizeDateText(a, s1, b, s2, c);
    NormalizeSeparatorsDigits(a);
    NormalizeSeparatorsDigits(b);
    NormalizeSeparatorsDigits(c);
    SplitDateText(a, b, c);
  }

  /** A `YYYY-M-D` text is read year first; the result does not depend on the
      ISO fallback, so an impossible date is an error at once. */
  lemma ParseDateYearFirst(p: string, y: string, s1: char, m: string, s2: char, d: string, q: string, iso: IsoParser)
    requires AllSpace(p) && AllSpace(q)
    requires IsNumeral(y, 4, 4) && IsNumeral(m, 1, 2) && IsNumeral(d, 1, 2)
    requires IsDateSeparator(s1) && IsDateSeparator(s2)
    ensures ParseDate(p + y + [s1] + m + [s2] + d + q, iso)
         == MakeDate(DigitsValue(y), DigitsValue(m), DigitsValue(d))
  {
    DateFields(p, y, s1, m, s2, d, q);
  }

  /** A `D-M-YYYY` text is read day first. */
  lemma ParseDateDayFirst(p: string, d: string, s1: char, m: string, s2: char, y: string, q: string, iso: IsoParser)
    requires AllSpace(p) && AllSpace(q)
    requires IsNumeral(d, 1, 2) && IsNumeral(m, 1, 2) && IsNumeral(y, 4, 4)
    requires IsDateSeparator(s1) && IsDateSeparator(s2)
    ensures ParseDate(p + d + [s1] + m + [s2] + y + q, iso)
         == MakeDate(DigitsValue(y), DigitsValue(m), DigitsValue(d))
  {
    DateFields(p, d, s1, m, s2, y, q);
  }

  /** Empty padding around three separated fields changes nothing. */
  lemma Unpadded(a: string, s1: char, b: string, s2: char, c: string)
    ensures "" + a + [s1] + b + [s2] + c + "" == a + [s1] + b + [s2] + c
  {
  }

  /** The ISO `YYYY-MM-DD` spelling of a real date gives that date's ordinal. */
  lemma ParseIsoSpelling(y: int, m: int, d: int, iso: IsoParser)
    requires IsValidDate(y, m, d)
    ensures ParseDate(Pad4(y) + "-" + Pad2(m) + "-" + Pad2(d), iso) == Success(ToOrdinal(y, m, d))
  {
    var ys, ms, ds := Pad4(y), Pad2(m), Pad2(d);
    Pad4Value(y);
    Pad2Value(m);
    Pad2Value(d);
    Unpadded(ys, '-', ms, '-', ds);
    ParseDateYearFirst("", ys, '-', ms, '-', ds, "", iso);
  }

  /** The day-first `DD/MM/YYYY` spelling of a real date gives that date's ordinal. */
  lemma ParseDayFirstSpelling(y: int, m: int, d: int, iso: IsoParser)
    requires IsValidDate(y, m, d)
    ensures ParseDate(Pad2(d) + "/" + Pad2(m) + "/" + Pad4(y), iso) == Success(ToOrdinal(y, m, d))
  {
    var ys, ms, ds := Pad4(y), Pad2(m), Pad2(d);
    Pad4Value(y);
    Pad2Value(m);
    Pad2Value(d);
    Unpadded(ds, '/', ms, '/', ys);
    ParseDateDayFirst("", ds, '/', ms, '/', ys, "", iso);
  }

  // ---------------------------------------------------------------------------
  // first_date_for_weekday

  /** Stepping from `start`, the first day with weekday `target` comes `offset`
      days later, and no earlier day has it. */
  lemma WeekdayOffset(start: int, target: int)
    requires 0 <= target < 7
    ensures var offset := (target - DayOfWeek(start)) % 7;
      && 0 <= offset < 7
      && DayOfWeek(start + offset) == target
      && forall n :: start <= n < start + offset ==> DayOfWeek(n) != target
  {
    var dw := DayOfWeek(start);
    var q := (start + 6) / 7;
    assert start + 6 == 7 * q + dw;
    var offset := (target - dw) % 7;
    assert offset == if target >= dw then target - dw else target - dw + 7;
    forall n | start <= n <= start + offset
      ensures DayOfWeek(n) == if dw + (n - start) < 7 then dw + (n - start) else dw + (n - start) - 7
    {
      var k := n - start;
      if dw + k < 7 {
        assert n + 6 == 7 * q + (dw + k);
      } else {
        assert n + 6 == 7 * (q + 1) + (dw + k - 7);
      }
    }
  }

  /** `first_date_for_weekday`: the first date on or after `start` that falls on
      `weekday`; adding the offset past 9999-12-31 raises `OverflowError`. */
  function FirstDateForWeekday(start: Date, weekday: Weekday): (r: Result<Date, Error>)
    ensures r.Success? ==> start <= r.value <= start + 6 && DayOfWeek(r.value) == weekday.Index()
    ensures r.Success? ==> forall n :: start <= n < r.value ==> DayOfWeek(n) != weekday.Index()
    ensures r.Success? ==> (r.value == start <==> DayOfWeek(start) == weekday.Index())
    ensures r.Failure? ==> r.error == DateOverflow
    ensures r.Failure? ==> forall n :: start <= n <= MaxOrdinal ==> DayOfWeek(n) != weekday.Index()
  {
    WeekdayOffset(start, weekday.Index());
    var offset := (weekday.Index() - DayOfWeek(start)) % 7;
    if start + offset <= MaxOrdinal then Success(start + offset) else Failure(DateOverflow)
  }

  // ---------------------------------------------------------------------------
  // Summary and location

  const DefaultSummary := "Course"

  /** `(text or '').strip() or 'Course'`. */
  function SummaryOf(raw: string): (name: string)
    ensures name != ""
    ensures Strip(raw) != "" ==> name == Strip(raw)
    ensures Strip(raw) == "" ==> name == DefaultSummary
  {
    var trimmed := Strip(raw);
    if trimmed == "" then DefaultSummary else trimmed
  }

  /** The LOCATION property is added only for a non-empty text. */
  function OptionalText(s: string): Option<string> {
    if s == "" then None else Some(s)
  }
}
