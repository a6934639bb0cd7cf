/** `get_feedback_times`: the deadline for public feedback, as a number of
    days after publication and as a date, read from an article's text.

    The regular expressions are scanned by hand. `.` does not match a
    newline, so a cue phrase runs from its first occurrence to the end of
    its line. `\d` and `\s` are ASCII-only, and `[a-z]` is ASCII. */
module Feedback {
  import opened Wrappers
  import opened Scan
  import opened Text
  import opened Numerals
  import opened Calendar
  import opened Strptime

  const DeadlineCue := "data limita"
  const PeriodCue := "perioada consultare publica"
  const DaysCue := "de la publicare)"

  /** `re.search(cue + '.*', t).group(0)`: from the first occurrence of the
      cue to the end of its line. */
  function Phrase(t: string, cue: string): (r: Option<string>)
    requires forall i :: 0 <= i < |cue| ==> cue[i] != '\n'
    ensures r.Some? <==> Contains(t, cue)
    ensures r.Some? ==> |cue| <= |r.value| && r.value[..|cue|] == cue
    ensures r.Some? ==> forall i :: 0 <= i < |r.value| ==> r.value[i] != '\n'
  {
    match FindFrom(t, cue, 0)
    case None => None
    case Some(k) =>
      assert forall j :: k <= j < k + |cue| ==> t[j] == cue[j - k];
      var e := LineEnd(t, k);
      Some(t[k..e])
  }

  /** The phrase starts at the cue's first occurrence and runs to the end
      of that line. */
  lemma PhraseFirstLine(t: string, cue: string)
    requires forall i :: 0 <= i < |cue| ==> cue[i] != '\n'
    requires Phrase(t, cue).Some?
    ensures exists k ::
      && OccursAt(t, cue, k)
      && (forall j :: 0 <= j < k ==> !OccursAt(t, cue, j))
      && Phrase(t, cue).value == t[k..LineEnd(t, k)]
  {
    var k := FindFrom(t, cue, 0).value;
    assert Phrase(t, cue).value == t[k..LineEnd(t, k)];
  }

  // ------------------------------------------------------- date patterns

  /** How many of `\d\d?` match at `i`. The character after `\d\d?` must be
      a dot or whitespace, never a digit, so when two digits are present the
      one-digit alternative cannot succeed: the count is exact. */
  function Digits12(s: string, i: nat): (n: nat)
    ensures n <= 2 && (n > 0 ==> i + n <= |s|)
    ensures forall k :: i <= k < i + n ==> IsDigit(s[k])
    ensures i + n < |s| && n < 2 ==> !IsDigit(s[i + n])
  {
    if i < |s| && IsDigit(s[i]) then
      if i + 1 < |s| && IsDigit(s[i + 1]) then 2 else 1
    else 0
  }

  /** `20\d\d` at `i`. */
  predicate YearAt(s: string, i: nat) {
    i + 4 <= |s| && s[i] == '2' && s[i + 1] == '0' && IsDigit(s[i + 2]) && IsDigit(s[i + 3])
  }

  /** `n` digits at `i`. */
  predicate DigitsAt(s: string, i: nat, n: nat) {
    i + n <= |s| && forall k :: i <= k < i + n ==> IsDigit(s[k])
  }

  /** `\d\d?\.\d\d?\.20\d\d` matches at `i` with `a` and `b` digits in
      its first two fields; it then ends at `i + a + b + 6`. */
  predicate NumericShape(s: string, i: nat, a: nat, b: nat) {
    && 1 <= a <= 2 && 1 <= b <= 2
    && DigitsAt(s, i, a) && i + a < |s| && s[i + a] == '.'
    && DigitsAt(s, i + a + 1, b) && i + a + 1 + b < |s| && s[i + a + 1 + b] == '.'
    && YearAt(s, i + a + b + 2)
  }

  /** The end of a `\d\d?\.\d\d?\.20\d\d` match at `i`. */
  function NumericDateAt(s: string, i: nat): (r: Option<nat>)
    ensures r.Some? ==> i < r.value <= |s|
    ensures r.Some? ==> forall k :: i <= k < r.value ==> IsDigit(s[k]) || s[k] == '.'
  {
    var a := Digits12(s, i);
    var j := i + a;
    if a == 0 || j >= |s| || s[j] != '.' then None
    else
      var b := Digits12(s, j + 1);
      var k := j + 1 + b;
      if b == 0 || k >= |s| || s[k] != '.' || !YearAt(s, k + 1) then None
      else Some(k + 5)
  }

  /** Every match of the first alternative has its layout. */
  lemma NumericDateSound(s: string, i: nat)
    requires NumericDateAt(s, i).Some?
    ensures exists a: nat, b: nat :: NumericShape(s, i, a, b) && NumericDateAt(s, i) == Some(i + a + b + 6)
  {
    var a := Digits12(s, i);
    var b := Digits12(s, i + a + 1);
    assert NumericShape(s, i, a, b);
  }

  /** The count `Digits12` takes is that of any digit run the next
      character ends. */
  lemma Digits12Exact(s: string, i: nat, a: nat)
    requires 1 <= a <= 2 && DigitsAt(s, i, a) && i + a < |s| && !IsDigit(s[i + a])
    ensures Digits12(s, i) == a
  {
  }

  /** Wherever the numeric layout holds, the first alternative matches
      there, to the end of the year. */
  lemma NumericDateComplete(s: string, i: nat, a: nat, b: nat)
    requires NumericShape(s, i, a, b)
    ensures NumericDateAt(s, i) == Some(i + a + b + 6)
  {
    Digits12Exact(s, i, a);
    Digits12Exact(s, i + a + 1, b);
  }

  /** `\d\d?\s[a-z]+\s20\d\d` matches at `i` with `a` day digits and the
      letters running up to `w`; it then ends at `w + 5`. */
  predicate NamedShape(s: string, i: nat, a: nat, w: nat) {
    && 1 <= a <= 2
    && DigitsAt(s, i, a) && i + a + 1 < w < |s| && IsRegexSpace(s[i + a])
    && (forall k :: i + a + 1 <= k < w ==> IsLowerAscii(s[k]))
    && IsRegexSpace(s[w]) && YearAt(s, w + 1)
  }

  /** The end of a `\d\d?\s[a-z]+\s20\d\d` match at `i`. A letter is never
      whitespace, so `[a-z]+` must take the whole run of letters. */
  function NamedDateAt(s: string, i: nat): (r: Option<nat>)
    ensures r.Some? ==> i < r.value <= |s|
    ensures r.Some? ==> exists k :: i <= k < r.value && IsLowerAscii(s[k])
  {
    var a := Digits12(s, i);
    var j := i + a;
    if a == 0 || j >= |s| || !IsRegexSpace(s[j]) then None
    else
      var w := Span(s, j + 1, IsLowerAscii);
      if w == j + 1 || w >= |s| || !IsRegexSpace(s[w]) || !YearAt(s, w + 1) then None
      else
        assert IsLowerAscii(s[j + 1]);
        Some(w + 5)
  }

  /** Every match of the second alternative has its layout. */
  lemma NamedDateSound(s: string, i: nat)
    requires NamedDateAt(s, i).Some?
    ensures exists a: nat, w: nat :: NamedShape(s, i, a, w) && NamedDateAt(s, i) == Some(w + 5)
  {
    var a := Digits12(s, i);
    var w := Span(s, i + a + 1, IsLowerAscii);
    assert NamedShape(s, i, a, w);
  }

  /** Wherever the month-name layout holds, the second alternative matches
      there, to the end of the year. */
  lemma NamedDateComplete(s: string, i: nat, a: nat, w: nat)
    requires NamedShape(s, i, a, w)
    ensures NamedDateAt(s, i) == Some(w + 5)
  {
    Digits12Exact(s, i, a);
    SpanExact(s, i + a + 1, w, IsLowerAscii);
  }

  /** The two alternatives never both match at one place: the character
      after the day digits is a dot in one and whitespace in the other. */
  lemma AlternativesExclusive(s: string, i: nat)
    ensures !(NumericDateAt(s, i).Some? && NamedDateAt(s, i).Some?)
  {
  }

  /** One match of `FEEDBACK_DEADLINE_DATE_PATTERN`; `numeric` tells which
      alternative (and so which group) matched. */
  datatype DateMatch = DateMatch(start: nat, end: nat, numeric: bool)

  /** The match starting at `i`, the first alternative tried first. */
  function DateAt(s: string, i: nat): (r: Option<DateMatch>)
    ensures r.Some? ==> r.value.start == i < r.value.end <= |s|
  {
    match NumericDateAt(s, i)
    case Some(e) => Some(DateMatch(i, e, true))
    case None =>
      match NamedDateAt(s, i)
      case Some(e) => Some(DateMatch(i, e, false))
      case None => None
  }

  /** A match exists where either alternative matches, and it records which
      one did and where that one ends. */
  lemma DateAtAlternatives(s: string, i: nat)
    ensures var r := DateAt(s, i);
      && (r.Some? <==> NumericDateAt(s, i).Some? || NamedDateAt(s, i).Some?)
      && (r.Some? && r.value.numeric ==> NumericDateAt(s, i) == Some(r.value.end))
      && (r.Some? && !r.value.numeric ==> NamedDateAt(s, i) == Some(r.value.end))
  {
  }

  /** `re.search(FEEDBACK_DEADLINE_DATE_PATTERN, s[from..])`: the leftmost match. */
  function SearchDate(s: string, from: nat): (r: Option<DateMatch>)
    ensures r.Some? ==> from <= r.value.start && DateAt(s, r.value.start) == r
    ensures forall i :: from <= i && (r.None? || i < r.value.start) ==> DateAt(s, i).None?
    decreases |s| - from
  {
    if from >= |s| then
      assert forall i :: from <= i ==> Digits12(s, i) == 0;
      None
    else if DateAt(s, from).Some? then DateAt(s, from)
    else SearchDate(s, from + 1)
  }

  /** `re.findall(FEEDBACK_DEADLINE_DATE_PATTERN, s[from..])`, as the matches
      themselves: each search resumes where the previous match ended. */
  function FindAllDates(s: string, from: nat): (ms: seq<DateMatch>)
    ensures forall m :: m in ms ==> from <= m.start && DateAt(s, m.start) == Some(m)
    ensures forall k :: 0 <= k < |ms| - 1 ==> ms[k].end <= ms[k + 1].start
    ensures |ms| > 0 <==> SearchDate(s, from).Some?
    decreases |s| - from
  {
    match SearchDate(s, from)
    case None => []
    case Some(m) =>
      var rest := FindAllDates(s, m.end);
      ConsDates(s, from, m, rest);
      [m] + rest
  }

  lemma ConsDates(s: string, from: nat, m: DateMatch, rest: seq<DateMatch>)
    requires from <= m.start && DateAt(s, m.start) == Some(m)
    requires forall x :: x in rest ==> m.end <= x.start && DateAt(s, x.start) == Some(x)
    requires forall k :: 0 <= k < |rest| - 1 ==> rest[k].end <= rest[k + 1].start
    ensures var ms := [m] + rest;
      && (forall x :: x in ms ==> from <= x.start && DateAt(s, x.start) == Some(x))
      && (forall k :: 0 <= k < |ms| - 1 ==> ms[k].end <= ms[k + 1].start)
  {
    var ms := [m] + rest;
    forall k | 0 <= k < |ms| - 1
      ensures ms[k].end <= ms[k + 1].start
    {
      assert ms[k + 1] == rest[k];
      if k > 0 {
        assert ms[k] == rest[k - 1];
      }
    }
  }

  lemma FindAllDatesUnfold(s: string, from: nat)
    ensures SearchDate(s, from).None? ==> FindAllDates(s, from) == []
    ensures SearchDate(s, from).Some? ==> var m := SearchDate(s, from).value;
      m.end <= |s| && FindAllDates(s, from) == [m] + FindAllDates(s, m.end)
  {
  }

  /** The search as a function of the position alone. */
  function DateSearch(s: string): nat -> Option<DateMatch> {
    (i: nat) => SearchDate(s, i)
  }

  function DateEnd(m: DateMatch): nat {
    m.end
  }

  lemma {:induction false} FindAllDatesIsChain(s: string, from: nat)
    ensures Chain(DateSearch(s), DateEnd, from, FindAllDates(s, from))
    decreases |s| - from
  {
    FindAllDatesUnfold(s, from);
    if SearchDate(s, from).Some? {
      var m := SearchDate(s, from).value;
      FindAllDatesIsChain(s, m.end);
      assert FindAllDates(s, from)[1..] == FindAllDates(s, m.end);
    }
  }

  /** `findall` is the chain of searches: the first match is the first
      search's, each next one is the search from where the previous match
      ended, and the search after the last finds nothing. */
  lemma FindAllDatesChain(s: string, from: nat)
    ensures var ms := FindAllDates(s, from);
      && (|ms| == 0 <==> SearchDate(s, from).None?)
      && (|ms| > 0 ==> SearchDate(s, from) == Some(ms[0]))
      && (forall k :: 0 <= k < |ms| - 1 ==> ms[k].end <= |s| && SearchDate(s, ms[k].end) == Some(ms[k + 1]))
      && (|ms| > 0 ==> ms[|ms| - 1].end <= |s| && SearchDate(s, ms[|ms| - 1].end).None?)
  {
    var ms := FindAllDates(s, from);
    FindAllDatesUnfold(s, from);
    forall k | 0 <= k < |ms| - 1
      ensures ms[k].end <= |s| && SearchDate(s, ms[k].end) == Some(ms[k + 1])
    {
      FindAllDatesNext(s, from, k);
    }
    if |ms| > 0 {
      FindAllDatesLast(s, from);
    }
  }

  lemma FindAllDatesNext(s: string, from: nat, k: nat)
    requires k + 1 < |FindAllDates(s, from)|
    ensures var ms := FindAllDates(s, from);
      ms[k].end <= |s| && SearchDate(s, ms[k].end) == Some(ms[k + 1])
  {
    var ms := FindAllDates(s, from);
    FindAllDatesIsChain(s, from);
    assert ms[k] in ms;
    ChainNext(DateSearch(s), DateEnd, from, ms, k);
  }

  lemma FindAllDatesLast(s: string, from: nat)
    requires |FindAllDates(s, from)| > 0
    ensures var ms := FindAllDates(s, from);
      ms[|ms| - 1].end <= |s| && SearchDate(s, ms[|ms| - 1].end).None?
  {
    var ms := FindAllDates(s, from);
    FindAllDatesIsChain(s, from);
    assert ms[|ms| - 1] in ms;
    ChainLast(DateSearch(s), DateEnd, from, ms);
  }

  /** The text of the match, `group(0)`. */
  function MatchText(s: string, m: DateMatch): string
    requires m.start <= m.end <= |s|
  {
    s[m.start..m.end]
  }

  /** `group(1)` as `findall` reports it: the empty string when the second
      alternative matched. */
  function Group1(s: string, m: DateMatch): string
    requires m.start <= m.end <= |s|
  {
    if m.numeric then s[m.start..m.end] else ""
  }

  // ------------------------------------------------------- days pattern

  /** `re.search(r'\(.*de la publicare\)', ph).group(0)` within one line:
      greedy `.*` runs to the last occurrence of the closing words, and the
      leftmost `(` before that occurrence starts the match. */
  function DaysMatch(ph: string): (r: Option<string>)
    ensures r.Some? ==> |r.value| > |DaysCue| && r.value[0] == '('
    ensures r.Some? ==> r.value[|r.value| - |DaysCue|..] == DaysCue
  {
    match LastOccurrence(ph, DaysCue, 0, |ph|)
    case None => None
    case Some(q) =>
      match FindFrom(ph, "(", 0)
      case None => None
      case Some(j) =>
        if j < q then
          assert ph[j..j + 1] == "(";
          var m := ph[j..q + |DaysCue|];
          assert m[|m| - |DaysCue|..] == ph[q..q + |DaysCue|];
          Some(m)
        else None
  }

  /** The first `(` of a line. */
  predicate FirstOpen(ph: string, j: int) {
    0 <= j < |ph| && ph[j] == '(' && forall k :: 0 <= k < j ==> ph[k] != '('
  }

  /** The last occurrence of the closing words in a line. */
  predicate LastCue(ph: string, q: int) {
    OccursAt(ph, DaysCue, q) && forall k :: q < k < |ph| ==> !OccursAt(ph, DaysCue, k)
  }

  /** One-character occurrences are the positions of that character. */
  lemma OpenOccurs(ph: string)
    ensures forall k :: OccursAt(ph, "(", k) <==> 0 <= k < |ph| && ph[k] == '('
  {
    forall k | 0 <= k < |ph| && ph[k] == '('
      ensures OccursAt(ph, "(", k)
    {
      assert ph[k..k + 1] == [ph[k]];
    }
  }

  /** The days match runs from the line's first `(` to the end of the last
      occurrence of the closing words, which lies after it. */
  lemma DaysMatchSpan(ph: string)
    requires DaysMatch(ph).Some?
    ensures exists j, q ::
      && FirstOpen(ph, j)
      && LastCue(ph, q)
      && j < q
      && DaysMatch(ph).value == ph[j..q + |DaysCue|]
  {
    var q := LastOccurrence(ph, DaysCue, 0, |ph|).value;
    var j := FindFrom(ph, "(", 0).value;
    DaysMatchEnds(ph, j, q);
  }

  /** What the two searches of `DaysMatch` find. */
  lemma DaysMatchEnds(ph: string, j: nat, q: nat)
    requires FindFrom(ph, "(", 0) == Some(j) && LastOccurrence(ph, DaysCue, 0, |ph|) == Some(q)
    ensures FirstOpen(ph, j) && LastCue(ph, q)
  {
    FirstOpenFound(ph, j);
  }

  lemma FirstOpenFound(ph: string, j: nat)
    requires FindFrom(ph, "(", 0) == Some(j)
    ensures FirstOpen(ph, j)
  {
    assert ph[j..j + 1] == "(";
    assert ph[j] == ph[j..j + 1][0];
    forall k | 0 <= k < j
      ensures ph[k] != '('
    {
      assert !OccursAt(ph, "(", k);
    }
  }

  /** A `(` before the closing words is all the match needs. */
  lemma DaysMatchExists(ph: string, j: nat, q: nat)
    requires j < |ph| && ph[j] == '(' && OccursAt(ph, DaysCue, q) && j < q
    ensures DaysMatch(ph).Some?
  {
    OpenOccurs(ph);
    var l := LastOccurrence(ph, DaysCue, 0, |ph|);
    var f := FindFrom(ph, "(", 0);
    assert l.Some? && q <= l.value;
    assert f.Some? && f.value <= j;
  }

  /** `m.replace("(", "").split(" ")[0]`: the text before the first space
      once every `(` is removed. */
  function DaysToken(m: string): (r: string)
    ensures forall i :: 0 <= i < |r| ==> r[i] != '(' && r[i] != ' '
    ensures var x := RemoveChar(m, '(');
      && |r| <= |x| && r == x[..|r|]
      && (|r| < |x| ==> x[|r|] == ' ')
  {
    TakeUntil(RemoveChar(m, '('), ' ')
  }

  /** The number of days tier 1 reads; a token that `int()` rejects leaves it
      absent (the `ValueError` is caught). */
  function DaysIn(ph: string): (r: Option<int>)
    ensures r.Some? ==> DaysMatch(ph).Some? && ParseInt(DaysToken(DaysMatch(ph).value)) == r
    ensures DaysMatch(ph).Some? ==> r == ParseInt(DaysToken(DaysMatch(ph).value))
  {
    match DaysMatch(ph)
    case None => None
    case Some(m) => ParseInt(DaysToken(m))
  }

  // ------------------------------------------------------------ the tiers

  /** Python truthiness of `fdbk_days`: `None` and `0` are false. */
  predicate Truthy(days: Option<int>) {
    days.Some? && days.value != 0
  }

  /** What the two tiers found before reconciliation. */
  datatype Found = Found(days: Option<int>, date: Option<Date>)

  /** Tier 1: within the "data limita" line, the first date match parsed by
      both formats, and the days in parentheses. */
  function Tier1(t: string): (r: Found)
    ensures Phrase(t, DeadlineCue).None? ==> r == Found(None, None)
    ensures r.date.Some? ==> Valid(r.date.value)
  {
    match Phrase(t, DeadlineCue)
    case None => Found(None, None)
    case Some(ph) =>
      var date := match SearchDate(ph, 0)
        case None => None
        case Some(m) => ParseEither(MatchText(ph, m));
      ParseEitherValid(if date.Some? then MatchText(ph, SearchDate(ph, 0).value) else "");
      Found(DaysIn(ph), date)
  }

  /** Tier 1 reads the first date match of the deadline line, under both
      formats, and the days of that same line. */
  lemma Tier1UsesFirstMatch(t: string, ph: string)
    requires Phrase(t, DeadlineCue) == Some(ph)
    ensures Tier1(t).days == DaysIn(ph)
    ensures Tier1(t).date == if SearchDate(ph, 0).Some? then ParseEither(MatchText(ph, SearchDate(ph, 0).value)) else None
  {
  }

  lemma ParseEitherValid(s: string)
    ensures ParseEither(s).Some? ==> Valid(ParseEither(s).value)
  {
  }

  /** Tier 2: within the "perioada consultare publica" line, group 1 of the
      last date match, parsed by both formats. */
  function Tier2(t: string): (r: Option<Date>)
    ensures Phrase(t, PeriodCue).None? ==> r.None?
    ensures r.Some? ==> Valid(r.value)
  {
    match Phrase(t, PeriodCue)
    case None => None
    case Some(ph) =>
      var ms := FindAllDates(ph, 0);
      if |ms| == 0 then None
      else ParseEither(Group1(ph, ms[|ms| - 1]))
  }

  /** Both tiers: the second runs only when the first found neither truthy
      days nor a date, and then can only supply the date. */
  function Observe(t: string): (r: Found)
    ensures r.date.Some? ==> Valid(r.date.value)
    ensures r.days == Tier1(t).days
  {
    var first := Tier1(t);
    if !Truthy(first.days) && first.date.None? then Found(first.days, Tier2(t))
    else first
  }

  // ---------------------------------------------------------- reconciling

  /** `fdbk_date` after reconciliation: a parsed `datetime`, or the ISO
      string computed from the publication date. */
  datatype Deadline = ParsedDate(date: Date) | IsoDate(iso: string)

  /** The pair `get_feedback_times` returns. */
  datatype Times = Times(days: Option<int>, date: Option<Deadline>)

  /** The calendar day a deadline denotes. */
  function DeadlineDay(d: Deadline): Option<Date> {
    match d
    case ParsedDate(x) => Some(x)
    case IsoDate(s) => IsoParse(s)
  }

  /** The final two `if`s: days alone give the date `publish + days` (which
      raises `OverflowError` outside years 1..9999); a date alone gives the
      days since publication; otherwise nothing is recomputed. */
  function Reconcile(found: Found, publish: Date): (r: Result<Times, Raised>)
    requires Valid(publish)
    requires found.date.Some? ==> Valid(found.date.value)
    ensures r.Failure? <==> Truthy(found.days) && found.date.None? && AddDays(publish, found.days.value).None?
    ensures r.Failure? ==> r.error == OverflowError
    ensures r.Success? && Truthy(found.days) ==> r.value.days == found.days
    ensures r.Success? && found.date.Some? ==> r.value.date == Some(ParsedDate(found.date.value))
    ensures r.Success? ==> (r.value.date.None? <==> !Truthy(found.days) && found.date.None?)
    ensures r.Success? && (Truthy(found.days) != found.date.Some?) ==>
      && r.value.days.Some? && r.value.date.Some?
      && DeadlineDay(r.value.date.value).Some?
      && AddDays(publish, r.value.days.value) == DeadlineDay(r.value.date.value)
    ensures r.Success? && !Truthy(found.days) && found.date.None? ==> r.value == Times(found.days, None)
  {
    if Truthy(found.days) && found.date.None? then
      match AddDays(publish, found.days.value)
      case None => Failure(OverflowError)
      case Some(d) =>
        IsoRoundTrip(d);
        Success(Times(found.days, Some(IsoDate(IsoFormat(d)))))
    else if !Truthy(found.days) && found.date.Some? then
      AddDaysBetween(found.date.value, publish);
      Success(Times(Some(DaysBetween(found.date.value, publish)), Some(ParsedDate(found.date.value))))
    else
      Success(Times(found.days, if found.date.Some? then Some(ParsedDate(found.date.value)) else None))
  }

  /** `get_feedback_times(text, publish_date)`. */
  function GetFeedbackTimes(text: string, publish: Date): (r: Result<Times, Raised>)
    requires Valid(publish)
    ensures r.Failure? ==> r.error == OverflowError
    ensures var t := Lower(Strip(text));
      !Contains(t, DeadlineCue) && !Contains(t, PeriodCue) ==> r == Success(Times(None, None))
  {
    Reconcile(Observe(Lower(Strip(text))), publish)
  }

  // ---------------------------------------------------------- properties

  /** Tier 2 never overrides tier 1: when tier 1 found truthy days or a
      date, its findings are final; otherwise tier 2 supplies the date. */
  lemma Tier2OnlyWhenNeeded(t: string)
    ensures Truthy(Tier1(t).days) || Tier1(t).date.Some? ==> Observe(t) == Tier1(t)
    ensures !Truthy(Tier1(t).days) && Tier1(t).date.None? ==> Observe(t) == Found(Tier1(t).days, Tier2(t))
  {
  }

  /** A text with no dot is not a `%d.%m.%Y` date. */
  lemma NoDotNotNumeric(s: string)
    requires forall k :: 0 <= k < |s| ==> s[k] != '.'
    ensures ParseNumeric(s).None?
  {
  }

  /** The empty group that `findall` reports for a month-name match parses
      under neither format. */
  lemma EmptyGroupUnparsed()
    ensures ParseEither("").None?
  {
    NoDotNotNumeric("");
  }

  /** A match of the first alternative parses exactly as `%d.%m.%Y`. */
  lemma NumericMatchParse(s: string, m: DateMatch)
    requires DateAt(s, m.start) == Some(m) && m.numeric
    ensures ParseEither(MatchText(s, m)) == ParseNumeric(MatchText(s, m))
  {
    var txt := MatchText(s, m);
    assert forall k :: 0 <= k < |txt| ==> txt[k] == s[m.start + k] && NumericChar(txt[k]);
  }

  /** Tier 2 reads the last date of the period line: a month-name date in
      last place yields no date even when numeric dates precede it, and a
      numeric one is parsed as `%d.%m.%Y`. */
  lemma Tier2UsesLastMatch(t: string)
    requires Phrase(t, PeriodCue).Some?
    ensures var ph := Phrase(t, PeriodCue).value; var ms := FindAllDates(ph, 0);
      && (|ms| == 0 ==> Tier2(t).None?)
      && (|ms| > 0 && !ms[|ms| - 1].numeric ==> Tier2(t).None?)
      && (|ms| > 0 && ms[|ms| - 1].numeric ==> Tier2(t) == ParseNumeric(MatchText(ph, ms[|ms| - 1])))
  {
    var ph := Phrase(t, PeriodCue).value;
    var ms := FindAllDates(ph, 0);
    if |ms| > 0 {
      var last := ms[|ms| - 1];
      assert last in ms;
      assert Tier2(t) == ParseEither(Group1(ph, last));
      if last.numeric {
        NumericMatchParse(ph, last);
      } else {
        EmptyGroupUnparsed();
      }
    }
  }

  /** Months are English: a day, a month name outside the English table
      and a year parse under neither format. */
  lemma ForeignMonthRejected(day: string, name: string, year: string)
    requires |day| == 2 && AllDigits(day) && |year| == 4 && AllDigits(year)
    requires |name| > 0 && forall k :: 0 <= k < |name| ==> 'a' <= name[k] <= 'z'
    requires forall m :: 0 <= m < 12 ==> name != MonthNames[m]
    ensures ParseEither(day + " " + name + " " + year).None?
  {
    ForeignNameUnparsed(day, name, year);
    NamedTextHasNoDot(day, name, year);
    NoDotNotNumeric(day + " " + name + " " + year);
  }

  lemma ForeignNameUnparsed(day: string, name: string, year: string)
    requires |day| == 2 && AllDigits(day) && |year| == 4 && AllDigits(year)
    requires |name| > 0 && forall k :: 0 <= k < |name| ==> 'a' <= name[k] <= 'z'
    requires forall m :: 0 <= m < 12 ==> name != MonthNames[m]
    ensures ParseNamed(day + " " + name + " " + year).None?
  {
    var c := SplitNamedOf(day, " ", name, " ", year);
    LowerOfLowercase(name);
    assert MonthNumber(name).None?;
  }

  lemma NamedTextHasNoDot(day: string, name: string, year: string)
    requires AllDigits(day) && AllDigits(year)
    requires forall k :: 0 <= k < |name| ==> 'a' <= name[k] <= 'z'
    ensures var s := day + " " + name + " " + year; forall k :: 0 <= k < |s| ==> s[k] != '.'
  {
    var s := day + " " + name + " " + year;
    forall k | 0 <= k < |s|
      ensures s[k] != '.'
    {
      if k < |day| {
        assert s[k] == day[k];
      } else if |day| < k < |day| + 1 + |name| {
        assert s[k] == name[k - |day| - 1];
      } else if |s| - |year| <= k {
        assert s[k] == year[k - (|s| - |year|)];
      }
    }
  }

  /** The Romanian "aprilie" of a typical deadline line is no English month. */
  lemma AprilieNotMonth()
    ensures forall m :: 0 <= m < 12 ==> "aprilie" != MonthNames[m]
  {
    assert forall m :: 0 <= m < 12 ==> |MonthNames[m]| != 7 || MonthNames[m][1] != 'p';
  }

  /** English month names parse: "07 april 2017" is 7 April 2017. */
  lemma EnglishMonthAccepted()
    ensures ParseEither("07 april 2017") == Some(Date(2017, 4, 7))
  {
    var d := Date(2017, 4, 7);
    ParseNamedRoundTrip(d);
    SampleText();
  }

  lemma SampleText()
    ensures NamedText(Date(2017, 4, 7)) == "07 april 2017"
  {
    SevenPadded();
    YearPadded();
    assert MonthNames[3] == "april";
  }

  lemma SevenPadded()
    ensures Pad2(7) == "07"
  {
  }

  lemma YearPadded()
    ensures Pad4(2017) == "2017"
  {
    assert Pad2(20) == "20";
    assert Pad2(17) == "17";
  }

  /** The last occurrence is the one after which the pattern's first
      character no longer appears. */
  lemma LastIs(t: string, p: string, q: nat)
    requires |p| > 0 && OccursAt(t, p, q)
    requires forall k :: q < k < |t| ==> t[k] != p[0]
    ensures LastOccurrence(t, p, 0, |t|) == Some(q)
  {
    var r := LastOccurrence(t, p, 0, |t|);
    assert r.Some?;
    assert t[r.value] == p[0];
  }

  /** A typical deadline line, "(10 zile de la publicare)" followed by a
      date, yields 10 days whatever the date text, provided it holds no 'd'
      (so the closing words cannot recur). */
  lemma DaysOfTypicalLine(tail: string)
    requires forall k :: 0 <= k < |tail| ==> tail[k] != 'd'
    ensures DaysIn("(10 zile " + DaysCue + tail) == Some(10)
  {
    TypicalMatch(tail);
    TypicalToken();
    TenParses();
  }

  lemma TypicalToken()
    ensures DaysToken("(10 zile " + DaysCue) == "10"
  {
    var x := "10 zile " + DaysCue;
    assert "(10 zile " + DaysCue == "(" + x;
    RemoveLeadingParen(x);
    TakeTen(DaysCue);
  }

  lemma TenParses()
    ensures ParseInt("10") == Some(10)
  {
    assert Show(10) == "10";
    ParseIntNatural(10, "10");
  }

  lemma RemoveLeadingParen(x: string)
    requires forall k :: 0 <= k < |x| ==> x[k] != '('
    ensures RemoveChar("(" + x, '(') == x
  {
    assert ("(" + x)[1..] == x;
  }

  lemma TypicalMatch(tail: string)
    requires forall k :: 0 <= k < |tail| ==> tail[k] != 'd'
    ensures DaysMatch("(10 zile " + DaysCue + tail) == Some("(10 zile " + DaysCue)
  {
    var head := "(10 zile ";
    var ph := head + DaysCue + tail;
    CueIsLast(head, tail);
    FirstParen(ph);
    assert ph[0..|head| + |DaysCue|] == head + DaysCue;
  }

  /** With no 'd' after it, the closing words are found at their place. */
  lemma CueIsLast(head: string, tail: string)
    requires forall k :: 0 <= k < |tail| ==> tail[k] != 'd'
    ensures var ph := head + DaysCue + tail; LastOccurrence(ph, DaysCue, 0, |ph|) == Some(|head|)
  {
    var ph := head + DaysCue + tail;
    var q := |head|;
    assert ph[q..q + |DaysCue|] == DaysCue;
    forall k | q < k < |ph|
      ensures ph[k] != 'd'
    {
      if k < q + |DaysCue| {
        assert ph[k] == DaysCue[k - q];
      } else {
        assert ph[k] == tail[k - q - |DaysCue|];
      }
    }
    LastIs(ph, DaysCue, q);
  }

  lemma TakeTen(rest: string)
    ensures TakeUntil("10 zile " + rest, ' ') == "10"
  {
    var s := "10 zile " + rest;
    assert s[0] == '1' && s[1] == '0' && s[2] == ' ';
    assert s[1..][1..] == s[2..];
  }

  lemma FirstParen(ph: string)
    requires |ph| > 0 && ph[0] == '('
    ensures FindFrom(ph, "(", 0) == Some(0)
  {
    assert ph[0..1] == "(";
  }
}
