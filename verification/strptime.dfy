/** The two `datetime.strptime` formats the scraper uses, as Python 2.7's
    `_strptime` matches them: `%d` is `3[01]|[12]\d|0[1-9]|[1-9]| [1-9]`,
    `%m` is `1[0-2]|0[1-9]|[1-9]`, `%Y` is four digits, `%B` is a full English
    month name in any case, a space in the format is `\s+`, the whole string
    must be consumed, and the resulting date must exist. `None` stands for the
    `ValueError` raised otherwise. */
module Strptime {
  import opened Wrappers
  import opened Text
  import opened Numerals
  import opened Calendar

  /** The text matched by `%d`. */
  function DayField(f: string): (r: Option<int>)
    ensures r.Some? ==> 1 <= r.value <= 31
    ensures r.Some? ==>
      || (|f| == 2 && f[0] == ' ' && IsDigit(f[1]) && r.value == DigitValue(f[1]))
      || (1 <= |f| <= 2 && AllDigits(f) && DigitsValue(f) == r.value)
    ensures 1 <= |f| <= 2 && AllDigits(f) && 1 <= DigitsValue(f) <= 31 ==> r == Some(DigitsValue(f))
    ensures |f| == 2 && f[0] == ' ' && IsDigit(f[1]) && f[1] != '0' ==> r == Some(DigitValue(f[1]))
  {
    if |f| == 1 && IsDigit(f[0]) && f[0] != '0' then
      assert f[..0] == [];
      Some(DigitValue(f[0]))
    else if |f| == 2 && f[0] == ' ' && IsDigit(f[1]) && f[1] != '0' then Some(DigitValue(f[1]))
    else if |f| == 2 && AllDigits(f) && 1 <= DigitsValue(f) <= 31 then Some(DigitsValue(f))
    else None
  }

  /** The text matched by `%m`. */
  function MonthField(f: string): (r: Option<int>)
    ensures r.Some? ==> 1 <= r.value <= 12 && 1 <= |f| <= 2 && AllDigits(f) && DigitsValue(f) == r.value
    ensures 1 <= |f| <= 2 && AllDigits(f) && 1 <= DigitsValue(f) <= 12 ==> r == Some(DigitsValue(f))
  {
    if |f| == 1 && IsDigit(f[0]) && f[0] != '0' then
      assert f[..0] == [];
      Some(DigitValue(f[0]))
    else if |f| == 2 && AllDigits(f) && 1 <= DigitsValue(f) <= 12 then Some(DigitsValue(f))
    else None
  }

  /** The text matched by `%Y`. */
  function YearField(f: string): (r: Option<int>)
    ensures r.Some? ==> |f| == 4 && AllDigits(f) && DigitsValue(f) == r.value
    ensures |f| == 4 && AllDigits(f) ==> r == Some(DigitsValue(f))
  {
    if |f| == 4 && AllDigits(f) then Some(DigitsValue(f)) else None
  }

  /** The date for parsed fields, if it exists. */
  function MakeDate(day: Option<int>, month: Option<int>, year: Option<int>): (r: Option<Date>)
    ensures r.Some? <==> day.Some? && month.Some? && year.Some? && Valid(Date(year.value, month.value, day.value))
    ensures r.Some? ==> r.value == Date(year.value, month.value, day.value) && Valid(r.value)
  {
    if day.Some? && month.Some? && year.Some? && Valid(Date(year.value, month.value, day.value)) then
      Some(Date(year.value, month.value, day.value))
    else None
  }

  /** Characters a `%d.%m.%Y` match can consist of. */
  predicate NumericChar(c: char) {
    IsDigit(c) || c == '.' || c == ' '
  }

  /** Two dots at `i` and `j` cut `s` into the day, month and year texts of
      `%d.%m.%Y`. */
  predicate NumericLayout(s: string, i: int, j: int) {
    0 <= i < j < |s| && s[i] == '.' && s[j] == '.'
  }

  /** `datetime.strptime(s, '%d.%m.%Y')`. No field contains a dot, so the two
      dots of a match are the first two dots of `s`. */
  function ParseNumeric(s: string): (r: Option<Date>)
    ensures r.Some? ==> Valid(r.value)
    ensures r.Some? ==> forall k :: 0 <= k < |s| ==> NumericChar(s[k])
    ensures r.Some? ==> exists i, j ::
      && NumericLayout(s, i, j)
      && DayField(s[..i]) == Some(r.value.day)
      && MonthField(s[i + 1..j]) == Some(r.value.month)
      && YearField(s[j + 1..]) == Some(r.value.year)
  {
    match FindFrom(s, ".", 0)
    case None => None
    case Some(i) =>
      var rest := s[i + 1..];
      match FindFrom(rest, ".", 0)
      case None => None
      case Some(j) =>
        var r := MakeDate(DayField(s[..i]), MonthField(rest[..j]), YearField(rest[j + 1..]));
        if r.Some? then
          DotCuts(s, i, j);
          r
        else None
  }

  lemma DotCuts(s: string, i: nat, j: nat)
    requires i < |s| && s[i] == '.' && j < |s[i + 1..]| && s[i + 1..][j] == '.'
    ensures NumericLayout(s, i, i + 1 + j)
    ensures s[i + 1..][..j] == s[i + 1..i + 1 + j] && s[i + 1..][j + 1..] == s[i + 1 + j + 1..]
    ensures s == s[..i] + "." + s[i + 1..][..j] + "." + s[i + 1..][j + 1..]
  {
    var rest := s[i + 1..];
    assert rest == rest[..j] + "." + rest[j + 1..];
    assert s == s[..i] + "." + rest;
  }

  /** The `%d.%m.%Y` rendering with two-digit day and month. */
  function NumericText(d: Date): string
    requires Valid(d)
  {
    Pad2(d.day) + "." + Pad2(d.month) + "." + Pad4(d.year)
  }

  lemma FirstDot(s: string, i: nat)
    requires i < |s| && s[i] == '.' && forall k :: 0 <= k < i ==> s[k] != '.'
    ensures FindFrom(s, ".", 0) == Some(i)
  {
    assert OccursAt(s, ".", i);
    var r := FindFrom(s, ".", 0);
    assert r.Some?;
    assert !OccursAt(s, ".", r.value) || s[r.value] == '.';
  }

  /** A field text `%d` or `%m` reads contains no dot. */
  lemma FieldHasNoDot(f: string)
    requires DayField(f).Some? || MonthField(f).Some?
    ensures forall k :: 0 <= k < |f| ==> f[k] != '.'
  {
  }

  /** Any day, month and year texts the fields read, joined by dots, parse
      to their date when it exists and to nothing when it does not. */
  lemma ParseNumericOfFields(day: string, month: string, year: string)
    requires DayField(day).Some? && MonthField(month).Some? && YearField(year).Some?
    ensures var d := Date(YearField(year).value, MonthField(month).value, DayField(day).value);
      ParseNumeric(day + "." + month + "." + year) == if Valid(d) then Some(d) else None
  {
    var s := day + "." + month + "." + year;
    FieldHasNoDot(day);
    FieldHasNoDot(month);
    assert forall k :: 0 <= k < |day| ==> s[k] == day[k];
    FirstDot(s, |day|);
    var rest := s[|day| + 1..];
    assert rest == month + "." + year;
    assert forall k :: 0 <= k < |month| ==> rest[k] == month[k];
    FirstDot(rest, |month|);
    assert s[..|day|] == day;
    assert rest[..|month|] == month;
    assert rest[|month| + 1..] == year;
  }

  /** Every valid date's zero-padded rendering parses back to it. */
  lemma ParseNumericRoundTrip(d: Date)
    requires Valid(d)
    ensures ParseNumeric(NumericText(d)) == Some(d)
  {
    var s := NumericText(d);
    FirstDot(s, 2);
    var rest := s[3..];
    assert rest == Pad2(d.month) + "." + Pad4(d.year);
    FirstDot(rest, 2);
    assert s[..2] == Pad2(d.day);
    assert rest[..2] == Pad2(d.month);
    assert rest[3..] == Pad4(d.year);
  }

  // ------------------------------------------------------------ %d %B %Y

  const MonthNames: seq<string> := [
    "january", "february", "march", "april", "may", "june",
    "july", "august", "september", "october", "november", "december"
  ]

  /** The month a `%B` token names (compared case-insensitively). */
  function MonthNumber(token: string): (r: Option<int>)
    ensures r.Some? ==> 1 <= r.value <= 12 && Lower(token) == MonthNames[r.value - 1]
    ensures r.None? ==> forall m :: 0 <= m < 12 ==> Lower(token) != MonthNames[m]
  {
    MonthFrom(Lower(token), 0)
  }

  function MonthFrom(name: string, m: nat): (r: Option<int>)
    requires m <= 12
    ensures r.Some? ==> m < r.value <= 12 && name == MonthNames[r.value - 1]
    ensures r.None? ==> forall k :: m <= k < 12 ==> name != MonthNames[k]
    decreases 12 - m
  {
    if m == 12 then None
    else if name == MonthNames[m] then Some(m + 1)
    else MonthFrom(name, m + 1)
  }

  /** Where the `%d` text ends: `" [1-9]"` when the string starts with a
      space, otherwise the leading digits (the whitespace that must follow
      is not a digit, so no shorter alternative can succeed). */
  function DayEnd(s: string): (e: nat)
    ensures e <= |s|
  {
    if |s| > 0 && s[0] == ' ' then (if |s| >= 2 then 2 else |s|) else Span(s, 0, IsDigit)
  }

  /** Cut points of a `%d %B %Y` match: the day is `s[..dayEnd]`, the month
      name `s[nameStart..nameEnd]` and the year `s[yearStart..]`. */
  datatype NamedCuts = NamedCuts(dayEnd: nat, nameStart: nat, nameEnd: nat, yearStart: nat)

  /** The layout `day\s+name\s+year`: a non-empty whitespace run on each
      side of a name without whitespace. */
  predicate NamedLayout(s: string, c: NamedCuts) {
    && c.dayEnd < c.nameStart < c.nameEnd < c.yearStart <= |s|
    && (forall k :: c.dayEnd <= k < c.nameStart ==> IsRegexSpace(s[k]))
    && (forall k :: c.nameStart <= k < c.nameEnd ==> !IsRegexSpace(s[k]))
    && (forall k :: c.nameEnd <= k < c.yearStart ==> IsRegexSpace(s[k]))
  }

  /** Splits `s` around the two whitespace runs `\s+` that the format requires. */
  function SplitNamed(s: string): (r: Option<NamedCuts>)
    ensures r.Some? ==> NamedLayout(s, r.value)
  {
    var a := DayEnd(s);
    var w1 := Span(s, a, IsRegexSpace);
    var b := Span(s, w1, NotRegexSpace);
    var w2 := Span(s, b, IsRegexSpace);
    if a < w1 && w1 < b && b < w2 then Some(NamedCuts(a, w1, b, w2)) else None
  }

  /** `datetime.strptime(s, '%d %B %Y')`. */
  function ParseNamed(s: string): (r: Option<Date>)
    ensures r.Some? ==> Valid(r.value)
    ensures r.Some? ==> exists k :: 0 <= k < |s| && !NumericChar(s[k])
    ensures r.Some? ==> exists c ::
      && NamedLayout(s, c)
      && DayField(s[..c.dayEnd]) == Some(r.value.day)
      && MonthNumber(s[c.nameStart..c.nameEnd]) == Some(r.value.month)
      && YearField(s[c.yearStart..]) == Some(r.value.year)
  {
    match SplitNamed(s)
    case None => None
    case Some(c) =>
      var name := s[c.nameStart..c.nameEnd];
      var r := MakeDate(DayField(s[..c.dayEnd]), MonthNumber(name), YearField(s[c.yearStart..]));
      if r.Some? then
        NameHasLetter(name, MonthNumber(name).value);
        assert s[c.nameStart] == name[0];
        r
      else None
  }

  lemma NameHasLetter(name: string, m: int)
    requires 1 <= m <= 12 && |name| > 0 && Lower(name) == MonthNames[m - 1]
    ensures !NumericChar(name[0])
  {
    assert Lower(name)[0] == LowerChar(name[0]);
  }

  /** The `%d %B %Y` rendering with a two-digit day. */
  function NamedText(d: Date): string
    requires Valid(d)
  {
    Pad2(d.day) + " " + MonthNames[d.month - 1] + " " + Pad4(d.year)
  }

  /** Every valid date's English rendering parses back to it. */
  lemma ParseNamedRoundTrip(d: Date)
    requires Valid(d)
    ensures ParseNamed(NamedText(d)) == Some(d)
  {
    var name := MonthNames[d.month - 1];
    MonthNameLetters(d.month - 1);
    LowerOfLowercase(name);
    MonthNamesDistinct();
    assert MonthNumber(name) == Some(d.month);
    ParseNamedOfFields(Pad2(d.day), " ", name, " ", Pad4(d.year));
  }

  lemma MonthNameLetters(m: int)
    requires 0 <= m < 12
    ensures |MonthNames[m]| > 0 && forall k :: 0 <= k < |MonthNames[m]| ==> 'a' <= MonthNames[m][k] <= 'z'
  {
  }

  lemma MonthNamesDistinct()
    ensures forall i, j :: 0 <= i < j < 12 ==> MonthNames[i] != MonthNames[j]
  {
  }

  /** A month name in any case holds no whitespace. */
  lemma MonthNameNoSpace(name: string)
    requires MonthNumber(name).Some?
    ensures |name| > 0 && forall k :: 0 <= k < |name| ==> !IsRegexSpace(name[k]) && !IsDigit(name[k])
  {
    var m := MonthNumber(name).value;
    MonthNameLetters(m - 1);
    forall k | 0 <= k < |name|
      ensures !IsRegexSpace(name[k]) && !IsDigit(name[k])
    {
      assert Lower(name)[k] == LowerChar(name[k]);
    }
  }

  /** A text `%d` could take up: a space and one character, or digits. */
  predicate DayShaped(day: string) {
    (|day| == 2 && day[0] == ' ') || (|day| > 0 && AllDigits(day))
  }

  /** Where a day text ends when whitespace follows it. */
  lemma DayEndOf(s: string, day: string)
    requires DayShaped(day) && |day| < |s| && s[..|day|] == day && IsRegexSpace(s[|day|])
    ensures DayEnd(s) == |day|
  {
    assert forall k :: 0 <= k < |day| ==> s[k] == day[k];
    if day[0] != ' ' {
      SpanExact(s, 0, |day|, IsDigit);
    }
  }

  /** The split is determined by the day's end and the three runs after it. */
  lemma SplitAt(s: string, c: NamedCuts)
    requires NamedLayout(s, c) && DayEnd(s) == c.dayEnd
    requires c.yearStart < |s| && !IsRegexSpace(s[c.yearStart])
    ensures SplitNamed(s) == Some(c)
  {
    SpanExact(s, c.dayEnd, c.nameStart, IsRegexSpace);
    SpanExact(s, c.nameStart, c.nameEnd, NotRegexSpace);
    SpanExact(s, c.nameEnd, c.yearStart, IsRegexSpace);
  }

  /** A string whose characters follow the layout `day\s+name\s+year`
      splits at the runs of whitespace. */
  lemma SplitNamedChars(s: string, day: string, c: NamedCuts)
    requires NamedLayout(s, c) && c.yearStart < |s| && !IsRegexSpace(s[c.yearStart])
    requires DayShaped(day) && c.dayEnd == |day| && s[..|day|] == day
    ensures SplitNamed(s) == Some(c)
  {
    DayEndOf(s, day);
    SplitAt(s, c);
  }

  /** Where the five parts of `day gap name gap year` sit in the joined text. */
  lemma Joined(day: string, gap1: string, name: string, gap2: string, year: string)
    ensures var a := |day| + |gap1|; var b := a + |name|; var e := b + |gap2|;
      var s := day + gap1 + name + gap2 + year;
      && |s| == e + |year|
      && s[..|day|] == day && s[a..b] == name && s[e..] == year
      && (forall k :: |day| <= k < a ==> s[k] == gap1[k - |day|])
      && (forall k :: a <= k < b ==> s[k] == name[k - a])
      && (forall k :: b <= k < e ==> s[k] == gap2[k - b])
  {
    var a := |day| + |gap1|;
    var b := a + |name|;
    var s := day + gap1 + name + gap2 + year;
    assert s == (day + gap1) + (name + gap2 + year);
    assert s[a..] == name + gap2 + year;
    assert s[a..b] == (name + gap2 + year)[..|name|];
  }

  /** `day gap name gap year` splits at the gaps. */
  lemma SplitNamedOf(day: string, gap1: string, name: string, gap2: string, year: string) returns (c: NamedCuts)
    requires DayShaped(day) && |year| > 0 && !IsRegexSpace(year[0])
    requires |name| > 0 && forall k :: 0 <= k < |name| ==> !IsRegexSpace(name[k])
    requires |gap1| > 0 && forall k :: 0 <= k < |gap1| ==> IsRegexSpace(gap1[k])
    requires |gap2| > 0 && forall k :: 0 <= k < |gap2| ==> IsRegexSpace(gap2[k])
    ensures var a := |day| + |gap1|; var b := a + |name|; c == NamedCuts(|day|, a, b, b + |gap2|)
    ensures var s := day + gap1 + name + gap2 + year;
      && SplitNamed(s) == Some(c)
      && s[..c.dayEnd] == day && s[c.nameStart..c.nameEnd] == name && s[c.yearStart..] == year
  {
    var s := day + gap1 + name + gap2 + year;
    var a := |day| + |gap1|;
    var b := a + |name|;
    var e := b + |gap2|;
    c := NamedCuts(|day|, a, b, e);
    Joined(day, gap1, name, gap2, year);
    assert s[e] == s[e..][0];
    SplitNamedChars(s, day, c);
  }

  /** Any day, month-name and year texts the fields read, with whitespace
      between them, parse to their date when it exists and to nothing when
      it does not. */
  lemma ParseNamedOfFields(day: string, gap1: string, name: string, gap2: string, year: string)
    requires DayField(day).Some? && MonthNumber(name).Some? && YearField(year).Some?
    requires |gap1| > 0 && forall k :: 0 <= k < |gap1| ==> IsRegexSpace(gap1[k])
    requires |gap2| > 0 && forall k :: 0 <= k < |gap2| ==> IsRegexSpace(gap2[k])
    ensures var d := Date(YearField(year).value, MonthNumber(name).value, DayField(day).value);
      ParseNamed(day + gap1 + name + gap2 + year) == if Valid(d) then Some(d) else None
  {
    MonthNameNoSpace(name);
    DayFieldShaped(day);
    var c := SplitNamedOf(day, gap1, name, gap2, year);
    ParseNamedAt(day + gap1 + name + gap2 + year, c, day, name, year);
  }

  /** Once split, the date is built from the three field texts. */
  lemma ParseNamedAt(s: string, c: NamedCuts, day: string, name: string, year: string)
    requires SplitNamed(s) == Some(c)
    requires s[..c.dayEnd] == day && s[c.nameStart..c.nameEnd] == name && s[c.yearStart..] == year
    ensures ParseNamed(s) == MakeDate(DayField(day), MonthNumber(name), YearField(year))
  {
  }

  lemma DayFieldShaped(day: string)
    requires DayField(day).Some?
    ensures DayShaped(day)
  {
  }

  lemma LowerOfLowercase(w: string)
    requires forall k :: 0 <= k < |w| ==> 'a' <= w[k] <= 'z'
    ensures Lower(w) == w
  {
  }

  /** The format loop tries `%d %B %Y` and then `%d.%m.%Y` without breaking,
      so a later success would overwrite an earlier one; no string parses
      under both, so the missing `break` never matters. */
  lemma FormatsExclusive(s: string)
    ensures !(ParseNamed(s).Some? && ParseNumeric(s).Some?)
  {
  }

  /** Result of the scraper's loop over `FEEDBACK_DATE_FORMATS`: the last
      format that parses wins. */
  function ParseEither(s: string): (r: Option<Date>)
    ensures r.Some? <==> ParseNamed(s).Some? || ParseNumeric(s).Some?
    ensures ParseNamed(s).Some? ==> r == ParseNamed(s)
    ensures ParseNumeric(s).Some? ==> r == ParseNumeric(s)
  {
    FormatsExclusive(s);
    var named := ParseNamed(s);
    var numeric := ParseNumeric(s);
    if numeric.Some? then numeric else named
  }
}
