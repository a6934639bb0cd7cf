/** Proleptic Gregorian dates as Python's `datetime` handles them: validated
    (year, month, day) triples, day ordinals counted from 0001-01-01 (the
    days-from-civil conversion behind `toordinal`), date plus a number of days
    with the `OverflowError` outside years 1..9999, and ISO rendering. */
module Calendar {
  import opened Wrappers
  import opened Text
  import opened Numerals

  datatype Date = Date(year: int, month: int, day: int)

  const MinYear := 1
  const MaxYear := 9999

  predicate IsLeap(y: int) {
    y % 4 == 0 && (y % 100 != 0 || y % 400 == 0)
  }

  function DaysInYear(y: int): int {
    if IsLeap(y) then 366 else 365
  }

  function DaysInMonth(m: int, y: int): int
    requires 1 <= m <= 12
  {
    if m == 2 then (if IsLeap(y) then 29 else 28)
    else if m == 4 || m == 6 || m == 9 || m == 11 then 30
    else 31
  }

  /** A date `datetime.date` accepts. */
  predicate Valid(d: Date) {
    && MinYear <= d.year <= MaxYear
    && 1 <= d.month <= 12
    && 1 <= d.day <= DaysInMonth(d.month, d.year)
  }

  /** Days in the years before `y` (Python's `_days_before_year`). */
  function DaysBeforeYear(y: int): int
    requires y >= 1
  {
    var p := y - 1;
    p * 365 + p / 4 - p / 100 + p / 400
  }

  /** Days in the months of `y` before month `m`; month 13 stands for the
      end of the year (Python's `_days_before_month`). */
  function DaysBeforeMonth(m: int, y: int): int
    requires 1 <= m <= 13
  {
    [0, 31, 59, 90, 120, 151, 181, 212, 243, 273, 304, 334, 365][m - 1]
      + (if m > 2 && IsLeap(y) then 1 else 0)
  }

  lemma YearStep(y: int)
    requires y >= 1
    ensures DaysBeforeYear(y + 1) == DaysBeforeYear(y) + DaysInYear(y)
  {
    var p := y - 1;
    DivStep4(p);
    DivStep100(p);
    DivStep400(p);
    LeapByRemainders(y);
    assert DaysBeforeYear(y + 1) == y * 365 + y / 4 - y / 100 + y / 400;
    assert DaysBeforeYear(y) == p * 365 + p / 4 - p / 100 + p / 400;
  }

  /** The leap-year rule read off the three remainders that change the
      count of leap days. */
  lemma LeapByRemainders(y: int)
    requires y >= 1
    ensures DaysInYear(y) - 365 == (if y % 4 == 0 then 1 else 0) - (if y % 100 == 0 then 1 else 0) + (if y % 400 == 0 then 1 else 0)
  {
    if y % 400 == 0 {
      assert y == 400 * (y / 400);
      assert y == 100 * (4 * (y / 400));
      assert y == 4 * (100 * (y / 400));
    } else if y % 100 == 0 {
      assert y == 4 * (25 * (y / 100));
    }
  }

  lemma DivStep4(p: int)
    requires p >= 0
    ensures (p + 1) / 4 == p / 4 + (if (p + 1) % 4 == 0 then 1 else 0)
  {
  }

  lemma DivStep100(p: int)
    requires p >= 0
    ensures (p + 1) / 100 == p / 100 + (if (p + 1) % 100 == 0 then 1 else 0)
  {
  }

  lemma DivStep400(p: int)
    requires p >= 0
    ensures (p + 1) / 400 == p / 400 + (if (p + 1) % 400 == 0 then 1 else 0)
  {
  }

  lemma MonthStep(m: int, y: int)
    requires 1 <= m <= 12
    ensures DaysBeforeMonth(m + 1, y) == DaysBeforeMonth(m, y) + DaysInMonth(m, y)
  {
  }

  lemma EndOfYear(y: int)
    ensures DaysBeforeMonth(13, y) == DaysInYear(y)
  {
  }

  lemma {:induction false} YearsGrow(a: int, b: int)
    requires 1 <= a <= b
    ensures DaysBeforeYear(a) + 365 * (b - a) <= DaysBeforeYear(b)
    decreases b - a
  {
    if a < b {
      YearsGrow(a, b - 1);
      YearStep(b - 1);
    }
  }

  lemma MonthsGrow(a: int, b: int, y: int)
    requires 1 <= a <= b <= 13
    ensures DaysBeforeMonth(a, y) + 28 * (b - a) <= DaysBeforeMonth(b, y)
  {
  }

  /** Ordinal of the last representable day, 9999-12-31. */
  const MaxOrdinal := 3652059

  /** Python's `date.toordinal()`: 0001-01-01 is day 1. */
  function Ordinal(d: Date): (n: int)
    requires Valid(d)
    ensures 1 <= n <= MaxOrdinal
    ensures DaysBeforeYear(d.year) < n <= DaysBeforeYear(d.year + 1)
  {
    YearStep(d.year);
    MonthStep(d.month, d.year);
    MonthsGrow(d.month + 1, 13, d.year);
    EndOfYear(d.year);
    YearsGrow(d.year + 1, MaxYear + 1);
    DaysBeforeYear(d.year) + DaysBeforeMonth(d.month, d.year) + d.day
  }

  /** Day one of the calendar is ordinal 1. */
  lemma OrdinalFirstDay()
    ensures Ordinal(Date(1, 1, 1)) == 1
  {
  }

  /** The next day of the same month has the next ordinal. */
  lemma NextDayInMonth(d: Date)
    requires Valid(d) && d.day < DaysInMonth(d.month, d.year)
    ensures Valid(Date(d.year, d.month, d.day + 1)) && Ordinal(Date(d.year, d.month, d.day + 1)) == Ordinal(d) + 1
  {
  }

  /** The first day of the next month follows the last day of a month. */
  lemma NextDayNewMonth(d: Date)
    requires Valid(d) && d.day == DaysInMonth(d.month, d.year) && d.month < 12
    ensures Valid(Date(d.year, d.month + 1, 1)) && Ordinal(Date(d.year, d.month + 1, 1)) == Ordinal(d) + 1
  {
    MonthStep(d.month, d.year);
  }

  /** New Year's day follows the 31st of December. */
  lemma NextDayNewYear(d: Date)
    requires Valid(d) && d.month == 12 && d.day == 31 && d.year < MaxYear
    ensures Valid(Date(d.year + 1, 1, 1)) && Ordinal(Date(d.year + 1, 1, 1)) == Ordinal(d) + 1
  {
    YearStep(d.year);
    EndOfYear(d.year);
    MonthStep(12, d.year);
  }

  /** The year whose days contain ordinal `n`, searching upwards from `y`. */
  function YearOf(n: int, y: int): (r: int)
    requires 1 <= y && DaysBeforeYear(y) < n
    ensures y <= r && DaysBeforeYear(r) < n <= DaysBeforeYear(r + 1)
    decreases n - DaysBeforeYear(y)
  {
    YearStep(y);
    if n <= DaysBeforeYear(y + 1) then y else YearOf(n, y + 1)
  }

  /** The month of year `y` containing day-of-year `k`, searching upwards from `m`. */
  function MonthOf(k: int, y: int, m: int): (r: int)
    requires 1 <= m <= 12 && DaysBeforeMonth(m, y) < k <= DaysBeforeMonth(13, y)
    ensures m <= r <= 12 && DaysBeforeMonth(r, y) < k <= DaysBeforeMonth(r + 1, y)
    decreases 12 - m
  {
    if k <= DaysBeforeMonth(m + 1, y) then m else MonthOf(k, y, m + 1)
  }

  /** Python's `date.fromordinal(n)`. */
  function FromOrdinal(n: int): (d: Date)
    requires 1 <= n <= MaxOrdinal
    ensures Valid(d) && Ordinal(d) == n
  {
    var y := YearOf(n, 1);
    if y > MaxYear then
      YearsGrow(MaxYear + 1, y);
      assert false;
      Date(1, 1, 1)
    else
      YearStep(y);
      EndOfYear(y);
      var k := n - DaysBeforeYear(y);
      var m := MonthOf(k, y, 1);
      MonthStep(m, y);
      Date(y, m, k - DaysBeforeMonth(m, y))
  }

  /** Distinct valid dates have distinct ordinals. */
  lemma OrdinalInjective(a: Date, b: Date)
    requires Valid(a) && Valid(b) && Ordinal(a) == Ordinal(b)
    ensures a == b
  {
    if a.year < b.year {
      YearsGrow(a.year + 1, b.year);
    } else if b.year < a.year {
      YearsGrow(b.year + 1, a.year);
    }
    assert a.year == b.year;
    if a.month < b.month {
      MonthStep(a.month, a.year);
      MonthsGrow(a.month + 1, b.month, a.year);
    } else if b.month < a.month {
      MonthStep(b.month, a.year);
      MonthsGrow(b.month + 1, a.month, a.year);
    }
  }

  lemma FromOrdinalOrdinal(d: Date)
    requires Valid(d)
    ensures FromOrdinal(Ordinal(d)) == d
  {
    OrdinalInjective(FromOrdinal(Ordinal(d)), d);
  }

  /** `date + timedelta(days=k)`; `None` is the `OverflowError` raised when
      the result leaves years 1..9999. */
  function AddDays(d: Date, k: int): (r: Option<Date>)
    requires Valid(d)
    ensures r.Some? <==> 1 <= Ordinal(d) + k <= MaxOrdinal
    ensures r.Some? ==> Valid(r.value) && Ordinal(r.value) == Ordinal(d) + k
  {
    var n := Ordinal(d) + k;
    if 1 <= n <= MaxOrdinal then Some(FromOrdinal(n)) else None
  }

  /** `(a - b).days` for two dates at midnight. */
  function DaysBetween(a: Date, b: Date): int
    requires Valid(a) && Valid(b)
  {
    Ordinal(a) - Ordinal(b)
  }

  /** Adding the day difference to the earlier date gives the later one back. */
  lemma AddDaysBetween(a: Date, b: Date)
    requires Valid(a) && Valid(b)
    ensures AddDays(b, DaysBetween(a, b)) == Some(a)
  {
    OrdinalInjective(AddDays(b, DaysBetween(a, b)).value, a);
  }

  lemma BetweenAddDays(b: Date, k: int)
    requires Valid(b) && AddDays(b, k).Some?
    ensures DaysBetween(AddDays(b, k).value, b) == k
  {
  }

  /** `date.isoformat()`: `YYYY-MM-DD`. */
  function IsoFormat(d: Date): (s: string)
    requires Valid(d)
    ensures |s| == 10
  {
    Pad4(d.year) + "-" + Pad2(d.month) + "-" + Pad2(d.day)
  }

  /** Reads a `YYYY-MM-DD` string back into a valid date. */
  function IsoParse(s: string): (r: Option<Date>)
    ensures r.Some? ==> Valid(r.value)
  {
    if |s| == 10 && s[4] == '-' && s[7] == '-' && AllDigits(s[..4]) && AllDigits(s[5..7]) && AllDigits(s[8..]) then
      var d := Date(DigitsValue(s[..4]), DigitsValue(s[5..7]), DigitsValue(s[8..]));
      if Valid(d) then Some(d) else None
    else None
  }

  /** The ISO rendering reads back as the same date. */
  lemma IsoRoundTrip(d: Date)
    requires Valid(d)
    ensures IsoParse(IsoFormat(d)) == Some(d)
  {
    var s := IsoFormat(d);
    assert s[..4] == Pad4(d.year);
    assert s[5..7] == Pad2(d.month);
    assert s[8..] == Pad2(d.day);
  }

  lemma IsoInjective(a: Date, b: Date)
    requires Valid(a) && Valid(b) && IsoFormat(a) == IsoFormat(b)
    ensures a == b
  {
    IsoRoundTrip(a);
    IsoRoundTrip(b);
  }
}
