/** The pieces of Python's `str`, `re` and `int()` behaviour the converters rely on:
    whitespace classification, `strip()`, `lower()`, `re.sub(r"\s+", " ", ·)`,
    `split(sep)`, and decimal-integer text. Only ASCII letters and digits are
    modelled; the whitespace class is the one `str.isspace()` uses. */
module Text {
  import opened Wrappers

  /** Python's `str.isspace()`; `\s` in a `str` pattern and `str.strip()` use the same class. */
  predicate IsSpace(c: char) {
    || c == ' '
    || '\t' <= c <= '\r'
    || '\U{1C}' <= c <= '\U{1F}'
    || c == '\U{85}' || c == '\U{A0}' || c == '\U{1680}'
    || '\U{2000}' <= c <= '\U{200A}'
    || c == '\U{2028}' || c == '\U{2029}' || c == '\U{202F}' || c == '\U{205F}' || c == '\U{3000}'
  }

  predicate IsDigit(c: char) {
    '0' <= c <= '9'
  }

  predicate IsUpper(c: char) {
    'A' <= c <= 'Z'
  }

  predicate AllSpace(s: string) {
    forall i :: 0 <= i < |s| ==> IsSpace(s[i])
  }

  predicate NoSpace(s: string) {
    forall i :: 0 <= i < |s| ==> !IsSpace(s[i])
  }

  predicate AllDigits(s: string) {
    forall i :: 0 <= i < |s| ==> IsDigit(s[i])
  }

  /** Neither end of `s` is whitespace (vacuously true of the empty string). */
  predicate Trimmed(s: string) {
    s == [] || (!IsSpace(s[0]) && !IsSpace(s[|s| - 1]))
  }

  // ---------------------------------------------------------------------------
  // lower()

  function LowerChar(c: char): char {
    if IsUpper(c) then (c as int + 32) as char else c
  }

  /** `str.lower()` on ASCII letters: each capital becomes the small letter at the
      same place in the alphabet, every other character is kept. */
  function Lower(s: string): (r: string)
    ensures |r| == |s|
    ensures forall i :: 0 <= i < |s| ==> !IsUpper(r[i])
    ensures forall i :: 0 <= i < |s| && !IsUpper(s[i]) ==> r[i] == s[i]
    ensures forall i :: 0 <= i < |s| && IsUpper(s[i]) ==>
      'a' <= r[i] <= 'z' && r[i] as int - 'a' as int == s[i] as int - 'A' as int
  {
    seq(|s|, i requires 0 <= i < |s| => LowerChar(s[i]))
  }

  /** Lower-casing never turns a non-space into a space or back. */
  lemma LowerKeepsSpaces(s: string)
    ensures |Lower(s)| == |s|
    ensures forall i :: 0 <= i < |s| ==> (IsSpace(Lower(s)[i]) <==> IsSpace(s[i]))
  {
  }

  lemma LowerAppend(a: string, b: string)
    ensures Lower(a + b) == Lower(a) + Lower(b)
  {
  }

  /** A text without whitespace at its ends keeps that property when lower-cased. */
  lemma LowerTrimmed(s: string)
    requires Trimmed(s)
    ensures Trimmed(Lower(s))
  {
    LowerKeepsSpaces(s);
  }

  // ---------------------------------------------------------------------------
  // strip()

  /** How many whitespace characters open `s`. */
  function LeadingSpaces(s: string): (n: nat)
    ensures n <= |s|
    ensures forall i :: 0 <= i < n ==> IsSpace(s[i])
    ensures n < |s| ==> !IsSpace(s[n])
  {
    if |s| > 0 && IsSpace(s[0]) then 1 + LeadingSpaces(s[1..]) else 0
  }

  /** How many whitespace characters close `s`. */
  function TrailingSpaces(s: string): (n: nat)
    ensures n <= |s|
    ensures forall i :: |s| - n <= i < |s| ==> IsSpace(s[i])
    ensures n < |s| ==> !IsSpace(s[|s| - 1 - n])
  {
    if |s| > 0 && IsSpace(s[|s| - 1]) then 1 + TrailingSpaces(s[..|s| - 1]) else 0
  }

  /** `str.lstrip()`. */
  function LStrip(s: string): string {
    s[LeadingSpaces(s)..]
  }

  /** `str.rstrip()`. */
  function RStrip(s: string): string {
    s[..|s| - TrailingSpaces(s)]
  }

  /** `str.strip()`: what remains after both ends lose their whitespace. */
  function Strip(s: string): (r: string)
    ensures Trimmed(r)
    ensures |r| <= |s|
  {
    RStrip(LStrip(s))
  }

  /** Left-stripping whitespace padding off a string that starts with a non-space. */
  lemma LStripPadding(p: string, y: string)
    requires AllSpace(p)
    requires y == [] || !IsSpace(y[0])
    ensures LStrip(p + y) == y
  {
    var s := p + y;
    assert forall i :: 0 <= i < |p| ==> IsSpace(s[i]);
    assert |y| > 0 ==> s[|p|] == y[0];
    assert LeadingSpaces(s) == |p|;
    assert s[|p|..] == y;
  }

  /** Right-stripping whitespace padding off a string that ends with a non-space. */
  lemma RStripPadding(x: string, q: string)
    requires AllSpace(q)
    requires x == [] || !IsSpace(x[|x| - 1])
    ensures RStrip(x + q) == x
  {
    var s := x + q;
    assert forall i :: |x| <= i < |s| ==> IsSpace(s[i]);
    assert |x| > 0 ==> s[|x| - 1] == x[|x| - 1];
    assert TrailingSpaces(s) == |q|;
    assert s[..|x|] == x;
  }

  lemma LeadingSpacesRun(s: string)
    ensures AllSpace(s[..LeadingSpaces(s)])
  {
    var p := s[..LeadingSpaces(s)];
    forall i | 0 <= i < |p| ensures IsSpace(p[i]) { assert p[i] == s[i]; }
  }

  lemma TrailingSpacesRun(s: string)
    ensures AllSpace(s[|s| - TrailingSpaces(s)..])
  {
    var n := TrailingSpaces(s);
    var q := s[|s| - n..];
    assert forall i :: 0 <= i < |q| ==> q[i] == s[|s| - n + i];
    assert AllSpace(q);
  }

  /** Every text is its stripped form with whitespace padding on either side. */
  lemma StripSplit(s: string) returns (p: string, q: string)
    ensures AllSpace(p) && AllSpace(q)
    ensures s == p + Strip(s) + q
  {
    var m := LStrip(s);
    var x := RStrip(m);
    p, q := s[..LeadingSpaces(s)], m[|m| - TrailingSpaces(m)..];
    LeadingSpacesRun(s);
    TrailingSpacesRun(m);
    assert s == p + m;
    assert m == x + q;
  }

  /** How many non-whitespace characters open `s`. */
  function LeadingWord(s: string): (n: nat)
    ensures n <= |s|
    ensures forall i :: 0 <= i < n ==> !IsSpace(s[i])
    ensures n < |s| ==> IsSpace(s[n])
  {
    if |s| > 0 && !IsSpace(s[0]) then 1 + LeadingWord(s[1..]) else 0
  }

  /** A whitespace character that follows a word and precedes more text
      survives stripping. */
  lemma StripKeepsInnerSpace(pad: string, a: string, d: string, e: int)
    requires AllSpace(pad) && |a| > 0 && NoSpace(a)
    requires |d| > 0 && IsSpace(d[0])
    requires 0 <= e < |d| && !IsSpace(d[e])
    ensures |a| < |Strip(pad + a + d)| && IsSpace(Strip(pad + a + d)[|a|])
  {
    var m := a + d;
    assert pad + a + d == pad + m;
    LStripPadding(pad, m);
    assert m[|a| + e] == d[e];
    var t := TrailingSpaces(m);
    assert |a| + e < |m| - t;
    assert Strip(pad + a + d) == m[..|m| - t];
    assert m[|a|] == d[0];
  }

  /** Stripping removes exactly the whitespace padded around a trimmed text. */
  lemma StripPadding(p: string, x: string, q: string)
    requires AllSpace(p) && AllSpace(q)
    requires Trimmed(x)
    ensures Strip(p + x + q) == x
  {
    assert p + x + q == p + (x + q);
    if x == [] {
      assert p + x + q == (p + q) + [];
      LStripPadding(p + q, []);
    } else {
      LStripPadding(p, x + q);
      RStripPadding(x, q);
    }
  }

  /** A text without whitespace at either end is its own strip. */
  lemma StripTrimmed(s: string)
    requires Trimmed(s)
    ensures Strip(s) == s
  {
    StripPadding([], s, []);
    assert [] + s + [] == s;
  }

  /** Stripping twice strips nothing more. */
  lemma StripIdempotent(s: string)
    ensures Strip(Strip(s)) == Strip(s)
  {
    StripTrimmed(Strip(s));
  }

  // ---------------------------------------------------------------------------
  // re.sub(r"\s+", " ", s)

  /** Lower-casing leaves the leading whitespace run as long as it was. */
  lemma {:induction false} LeadingSpacesLower(s: string)
    ensures LeadingSpaces(Lower(s)) == LeadingSpaces(s)
    decreases |s|
  {
    LowerKeepsSpaces(s);
    if |s| > 0 && IsSpace(s[0]) {
      assert Lower(s)[1..] == Lower(s[1..]);
      LeadingSpacesLower(s[1..]);
    }
  }

  /** Lower-casing leaves the trailing whitespace run as long as it was. */
  lemma {:induction false} TrailingSpacesLower(s: string)
    ensures TrailingSpaces(Lower(s)) == TrailingSpaces(s)
    decreases |s|
  {
    LowerKeepsSpaces(s);
    if |s| > 0 && IsSpace(s[|s| - 1]) {
      assert Lower(s)[..|s| - 1] == Lower(s[..|s| - 1]);
      TrailingSpacesLower(s[..|s| - 1]);
    }
  }

  /** `s.lower().lstrip() == s.lstrip().lower()`. */
  lemma LStripLower(s: string)
    ensures LStrip(Lower(s)) == Lower(LStrip(s))
  {
    LeadingSpacesLower(s);
  }

  /** `s.lower().rstrip() == s.rstrip().lower()`. */
  lemma RStripLower(s: string)
    ensures RStrip(Lower(s)) == Lower(RStrip(s))
  {
    TrailingSpacesLower(s);
  }

  /** `s.lower().strip() == s.strip().lower()`. */
  lemma StripLower(s: string)
    ensures Strip(Lower(s)) == Lower(Strip(s))
  {
    LStripLower(s);
    RStripLower(LStrip(s));
  }

  /** Replaces every maximal run of whitespace in `s` by one ASCII space. */
  function CollapseSpaces(s: string): (r: string)
    ensures |s| > 0 <==> |r| > 0
    ensures |s| > 0 ==> (IsSpace(r[0]) <==> IsSpace(s[0]))
    ensures forall i :: 0 <= i < |r| && IsSpace(r[i]) ==> r[i] == ' '
    ensures forall i :: 0 <= i < |r| - 1 ==> !(IsSpace(r[i]) && IsSpace(r[i + 1]))
    decreases |s|
  {
    if |s| == 0 then []
    else if IsSpace(s[0]) then
      " " + CollapseSpaces(LStrip(s))
    else
      [s[0]] + CollapseSpaces(s[1..])
  }

  /** A whitespace-free text passes through the collapse unchanged. */
  lemma {:induction false} CollapseNoSpacePrefix(t: string, rest: string)
    requires NoSpace(t)
    ensures CollapseSpaces(t + rest) == t + CollapseSpaces(rest)
    decreases |t|
  {
    if |t| > 0 {
      var s := t + rest;
      assert s[0] == t[0] && !IsSpace(t[0]);
      assert s[1..] == t[1..] + rest;
      assert NoSpace(t[1..]) by {
        forall i | 0 <= i < |t| - 1 ensures !IsSpace(t[1..][i]) {
          assert t[1..][i] == t[i + 1];
        }
      }
      CollapseNoSpacePrefix(t[1..], rest);
      assert CollapseSpaces(s) == [t[0]] + CollapseSpaces(s[1..]);
      assert [t[0]] + t[1..] == t;
    } else {
      assert t + rest == rest;
    }
  }

  /** A non-empty run of whitespace becomes a single space. */
  lemma CollapseSpaceRun(q: string, x: string)
    requires AllSpace(q) && |q| > 0
    requires x == [] || !IsSpace(x[0])
    ensures CollapseSpaces(q + x) == " " + CollapseSpaces(x)
  {
    LStripPadding(q, x);
  }

  /** Collapsing keeps at least one non-whitespace character of a text that has one. */
  lemma {:induction false} CollapseKeepsWord(s: string, i: int)
    requires 0 <= i < |s| && !IsSpace(s[i])
    ensures exists j :: 0 <= j < |CollapseSpaces(s)| && !IsSpace(CollapseSpaces(s)[j])
    decreases |s|
  {
    if IsSpace(s[0]) {
      var n := LeadingSpaces(s);
      assert LStrip(s)[i - n] == s[i];
      CollapseKeepsWord(LStrip(s), i - n);
      var r := CollapseSpaces(LStrip(s));
      var j :| 0 <= j < |r| && !IsSpace(r[j]);
      assert CollapseSpaces(s)[j + 1] == r[j];
    } else {
      assert !IsSpace(CollapseSpaces(s)[0]);
    }
  }

  /** Collapsing whitespace and lower-casing can be done in either order. */
  lemma {:induction false} CollapseLower(s: string)
    ensures CollapseSpaces(Lower(s)) == Lower(CollapseSpaces(s))
    decreases |s|
  {
    if |s| > 0 {
      var t := Lower(s);
      assert t[0] == LowerChar(s[0]);
      if IsSpace(s[0]) {
        assert IsSpace(t[0]);
        LStripLower(s);
        CollapseLower(LStrip(s));
        LowerAppend(" ", CollapseSpaces(LStrip(s)));
      } else {
        assert !IsSpace(t[0]);
        assert t[1..] == Lower(s[1..]);
        CollapseLower(s[1..]);
        LowerAppend([s[0]], CollapseSpaces(s[1..]));
      }
    }
  }

  // ---------------------------------------------------------------------------
  // split(sep) and its inverse

  /** The separator-joined text of a non-empty list of parts. */
  function Join(parts: seq<string>, sep: char): string
    requires |parts| > 0
  {
    if |parts| == 1 then parts[0] else parts[0] + [sep] + Join(parts[1..], sep)
  }

  /** `str.split(sep)` with an explicit separator: empty parts are kept, and the
      empty string splits into one empty part. */
  function Split(s: string, sep: char): (parts: seq<string>)
    ensures |parts| > 0
    ensures forall i :: 0 <= i < |parts| ==> sep !in parts[i]
    ensures Join(parts, sep) == s
    decreases |s|
  {
    if |s| == 0 then [""]
    else
      var rest := Split(s[1..], sep);
      if s[0] == sep then
        assert s == [sep] + s[1..];
        [""] + rest
      else
        var parts := [[s[0]] + rest[0]] + rest[1..];
        assert parts[1..] == rest[1..];
        assert sep !in parts[0];
        assert Join(parts, sep) == [s[0]] + Join(rest, sep) by {
          if |rest| > 1 {
            assert Join(rest, sep) == rest[0] + [sep] + Join(rest[1..], sep);
          }
        }
        assert s == [s[0]] + s[1..];
        parts
  }

  lemma {:induction false} SplitNoSeparator(p: string, sep: char)
    requires sep !in p
    ensures Split(p, sep) == [p]
    decreases |p|
  {
    if |p| > 0 {
      assert p[0] in p;
      assert forall c :: c in p[1..] ==> c in p;
      SplitNoSeparator(p[1..], sep);
      assert [p[0]] + p[1..] == p;
    }
  }

  lemma {:induction false} SplitSeparated(p: string, sep: char, rest: string)
    requires sep !in p
    ensures Split(p + [sep] + rest, sep) == [p] + Split(rest, sep)
    decreases |p|
  {
    if |p| == 0 {
      assert p + [sep] + rest == [sep] + rest;
      assert ([sep] + rest)[1..] == rest;
    } else {
      assert p[0] in p;
      assert forall c :: c in p[1..] ==> c in p;
      assert (p + [sep] + rest)[1..] == p[1..] + [sep] + rest;
      SplitSeparated(p[1..], sep, rest);
      assert [p[0]] + p[1..] == p;
    }
  }

  /** Splitting undoes joining, whenever no part contains the separator. */
  lemma {:induction false} SplitJoin(parts: seq<string>, sep: char)
    requires |parts| > 0
    requires forall i :: 0 <= i < |parts| ==> sep !in parts[i]
    ensures Split(Join(parts, sep), sep) == parts
    decreases |parts|
  {
    if |parts| == 1 {
      SplitNoSeparator(parts[0], sep);
    } else {
      SplitJoin(parts[1..], sep);
      SplitSeparated(parts[0], sep, Join(parts[1..], sep));
      assert [parts[0]] + parts[1..] == parts;
    }
  }

  lemma {:induction false} JoinAppend(a: seq<string>, b: seq<string>, sep: char)
    requires |a| > 0 && |b| > 0
    ensures Join(a + b, sep) == Join(a, sep) + [sep] + Join(b, sep)
    decreases |a|
  {
    if |a| == 1 {
      assert (a + b)[1..] == b;
    } else {
      assert (a + b)[1..] == a[1..] + b;
      JoinAppend(a[1..], b, sep);
    }
  }

  /** Digit strings joined by a separator hold nothing but digits and that
      separator. */
  lemma {:induction false} JoinOfDigits(parts: seq<string>, sep: char)
    requires |parts| > 0
    requires forall k :: 0 <= k < |parts| ==> AllDigits(parts[k])
    ensures forall i :: 0 <= i < |Join(parts, sep)| ==> IsDigit(Join(parts, sep)[i]) || Join(parts, sep)[i] == sep
    decreases |parts|
  {
    if |parts| > 1 {
      JoinOfDigits(parts[1..], sep);
      var rest := Join(parts[1..], sep);
      assert Join(parts, sep) == parts[0] + [sep] + rest;
      forall i | 0 <= i < |Join(parts, sep)|
        ensures IsDigit(Join(parts, sep)[i]) || Join(parts, sep)[i] == sep
      {
        if i < |parts[0]| {
          assert Join(parts, sep)[i] == parts[0][i];
        } else if i > |parts[0]| {
          assert Join(parts, sep)[i] == rest[i - |parts[0]| - 1];
        }
      }
    }
  }

  /** Splitting a text joined at a separator splits each side on its own. */
  lemma SplitConcat(a: string, b: string, sep: char)
    ensures Split(a + [sep] + b, sep) == Split(a, sep) + Split(b, sep)
  {
    var pa := Split(a, sep);
    var pb := Split(b, sep);
    JoinAppend(pa, pb, sep);
    SplitJoin(pa + pb, sep);
  }

  // ---------------------------------------------------------------------------
  // Decimal digits

  function Pow10(n: nat): nat {
    if n == 0 then 1 else 10 * Pow10(n - 1)
  }

  function DigitValue(c: char): int
    requires IsDigit(c)
  {
    c as int - '0' as int
  }

  function DigitChar(n: int): char
    requires 0 <= n <= 9
  {
    ('0' as int + n) as char
  }

  /** The number a string of ASCII digits spells, most significant digit first. */
  function DigitsValue(s: string): (n: nat)
    requires AllDigits(s)
    ensures n < Pow10(|s|)
  {
    if |s| == 0 then 0 else DigitsValue(s[..|s| - 1]) * 10 + DigitValue(s[|s| - 1])
  }

  /** The shortest decimal spelling of `n`. */
  function NatToDigits(n: nat): (s: string)
    ensures |s| > 0 && AllDigits(s)
    ensures DigitsValue(s) == n
    ensures s[0] != '0' || n == 0
  {
    if n < 10 then [DigitChar(n)]
    else
      var s := NatToDigits(n / 10) + [DigitChar(n % 10)];
      assert s[..|s| - 1] == NatToDigits(n / 10);
      s
  }

  /** A two-digit, zero-padded spelling (`%02d`). */
  function Pad2(n: int): (s: string)
    requires 0 <= n < 100
  {
    [DigitChar(n / 10), DigitChar(n % 10)]
  }

  /** A four-digit, zero-padded spelling (`%04d`). */
  function Pad4(n: int): (s: string)
    requires 0 <= n < 10000
  {
    Pad2(n / 100) + Pad2(n % 100)
  }

  /** A two-digit numeral is the padded spelling of its own value, and back. */
  lemma TwoDigits(s: string)
    requires AllDigits(s) && |s| == 2
    ensures DigitsValue(s) < 100 && s == Pad2(DigitsValue(s))
  {
    assert s[..1][..0] == [];
  }

  lemma Pad2Value(n: int)
    requires 0 <= n < 100
    ensures AllDigits(Pad2(n)) && DigitsValue(Pad2(n)) == n
  {
    var s := Pad2(n);
    assert s[..1] == [DigitChar(n / 10)];
    assert s[..1][..0] == [];
  }

  lemma Pad4Value(n: int)
    requires 0 <= n < 10000
    ensures |Pad4(n)| == 4 && AllDigits(Pad4(n)) && DigitsValue(Pad4(n)) == n
  {
    var s := Pad4(n);
    Pad2Value(n / 100);
    assert s[..3][..2] == Pad2(n / 100);
    assert s[..3] == Pad2(n / 100) + [DigitChar(n % 100 / 10)];
  }

  // ---------------------------------------------------------------------------
  // int(text), base 10

  /** The body `int()` accepts after the sign: digits, with single underscores
      allowed between two digits. */
  predicate IsDigitGroup(s: string) {
    && |s| > 0
    && IsDigit(s[0])
    && IsDigit(s[|s| - 1])
    && (forall i :: 0 <= i < |s| ==> IsDigit(s[i]) || s[i] == '_')
    && (forall i, j :: 0 <= i < |s| && 0 <= j < |s| && j == i + 1 ==> !(s[i] == '_' && s[j] == '_'))
  }

  function RemoveUnderscores(s: string): (r: string)
    requires forall i :: 0 <= i < |s| ==> IsDigit(s[i]) || s[i] == '_'
    ensures AllDigits(r)
    ensures AllDigits(s) ==> r == s
  {
    if |s| == 0 then []
    else (if s[0] == '_' then [] else [s[0]]) + RemoveUnderscores(s[1..])
  }

  function GroupValue(s: string): nat
    requires IsDigitGroup(s)
  {
    DigitsValue(RemoveUnderscores(s))
  }

  /** A plain run of digits is a digit group worth its digits' value. */
  lemma DigitsAreGroup(s: string)
    requires |s| > 0 && AllDigits(s)
    ensures IsDigitGroup(s) && GroupValue(s) == DigitsValue(s)
  {
  }

  /** Python's `int(text)`: surrounding whitespace, an optional `+`/`-` sign and a
      digit group; anything else is a `ValueError`, modelled as `None`. */
  function ParseInt(text: string): Option<int> {
    ParseIntLiteral(Strip(text))
  }

  /** The sign-and-digit-group part of `int()`, on already stripped text. */
  function ParseIntLiteral(s: string): Option<int> {
    if |s| > 0 && (s[0] == '+' || s[0] == '-') then
      var body := s[1..];
      if IsDigitGroup(body) then
        var v: int := GroupValue(body);
        Some(if s[0] == '-' then -v else v)
      else None
    else if IsDigitGroup(s) then Some(GroupValue(s))
    else None
  }

  /** `str(n)`: the decimal spelling of an integer. */
  function FormatInt(n: int): string {
    if n < 0 then "-" + NatToDigits(-n) else NatToDigits(n)
  }

  /** A decimal spelling has no whitespace at either end. */
  lemma FormatIntTrimmed(n: int)
    ensures FormatInt(n) != "" && Trimmed(FormatInt(n))
  {
    var f := FormatInt(n);
    var d := NatToDigits(if n < 0 then -n else n);
    assert f[|f| - 1] == d[|d| - 1];
    assert IsDigit(d[|d| - 1]);
  }

  /** An unsigned digit group reads as its value. */
  lemma ParseUnsignedGroup(s: string)
    requires IsDigitGroup(s)
    ensures ParseIntLiteral(s) == Some(GroupValue(s))
  {
    assert IsDigit(s[0]) && s[0] != '+' && s[0] != '-';
  }

  lemma ParseIntDigits(text: string, s: string)
    requires Strip(text) == s && |s| > 0 && AllDigits(s)
    ensures ParseInt(text) == Some(DigitsValue(s))
  {
    DigitsAreGroup(s);
    ParseUnsignedGroup(s);
  }

  lemma ParseIntNegativeDigits(text: string, s: string)
    requires Strip(text) == "-" + s && |s| > 0 && AllDigits(s)
    ensures ParseInt(text).Some? && ParseInt(text).value == -(DigitsValue(s) as int)
  {
    var t := "-" + s;
    assert t[0] == '-' && t[1..] == s;
    DigitsAreGroup(s);
    assert IsDigitGroup(t[1..]);
  }

  /** `int()` of blank text, the empty string included, is an error. */
  lemma ParseIntBlank(text: string)
    requires AllSpace(text)
    ensures ParseInt(text) == None
  {
    StripPadding(text, "", "");
    assert text + "" + "" == text;
  }

  /** `int()` reads back every integer's decimal spelling, whatever whitespace surrounds it. */
  lemma ParseFormatInt(p: string, n: int, q: string)
    requires AllSpace(p) && AllSpace(q)
    ensures ParseInt(p + FormatInt(n) + q) == Some(n)
  {
    var f := FormatInt(n);
    if n < 0 {
      var d := NatToDigits(-n);
      assert f == "-" + d;
      assert Trimmed(f) by {
        assert f[|f| - 1] == d[|d| - 1];
        assert IsDigit(d[|d| - 1]);
      }
      StripPadding(p, f, q);
      ParseIntNegativeDigits(p + f + q, d);
    } else {
      assert Trimmed(f) by {
        assert IsDigit(f[0]) && IsDigit(f[|f| - 1]);
      }
      StripPadding(p, f, q);
      ParseIntDigits(p + f + q, f);
    }
  }
}
