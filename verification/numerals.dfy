/** Decimal digits: their values, fixed-width rendering (`%02d`, `%04d`) and
    Python 2's base-10 `int()` conversion of a string. */
module Numerals {
  import opened Wrappers
  import opened Text

  function DigitValue(c: char): nat
    requires IsDigit(c)
  {
    c as int - '0' as int
  }

  function DigitChar(n: nat): (c: char)
    requires n < 10
    ensures IsDigit(c) && DigitValue(c) == n
  {
    ('0' as int + n) as char
  }

  predicate AllDigits(s: string) {
    forall i :: 0 <= i < |s| ==> IsDigit(s[i])
  }

  /** The value of a string of decimal digits, most significant first. */
  function DigitsValue(s: string): nat
    requires AllDigits(s)
    decreases |s|
  {
    if |s| == 0 then 0 else DigitsValue(s[..|s| - 1]) * 10 + DigitValue(s[|s| - 1])
  }

  lemma DigitsValueSnoc(s: string, c: char)
    requires AllDigits(s) && IsDigit(c)
    ensures AllDigits(s + [c]) && DigitsValue(s + [c]) == DigitsValue(s) * 10 + DigitValue(c)
  {
    assert (s + [c])[..|s|] == s;
  }

  /** `str(n)` for a natural number. */
  function Show(n: nat): (r: string)
    ensures |r| > 0 && AllDigits(r)
    ensures r[0] != '0' || n == 0
  {
    if n < 10 then [DigitChar(n)] else Show(n / 10) + [DigitChar(n % 10)]
  }

  lemma {:induction false} ShowRoundTrip(n: nat)
    ensures DigitsValue(Show(n)) == n
  {
    if n >= 10 {
      var s := Show(n);
      assert s[..|s| - 1] == Show(n / 10);
      ShowRoundTrip(n / 10);
    }
  }

  /** `'%02d' % n`. */
  function Pad2(n: nat): (r: string)
    requires n < 100
    ensures |r| == 2 && AllDigits(r) && DigitsValue(r) == n
  {
    var r := [DigitChar(n / 10)] + [DigitChar(n % 10)];
    DigitsValueSnoc([], DigitChar(n / 10));
    DigitsValueSnoc([DigitChar(n / 10)], DigitChar(n % 10));
    r
  }

  /** `'%04d' % n`. */
  function Pad4(n: nat): (r: string)
    requires n < 10000
    ensures |r| == 4 && AllDigits(r) && DigitsValue(r) == n
  {
    var hi, lo := Pad2(n / 100), Pad2(n % 100);
    DigitsValueAppend2(hi, lo);
    hi + lo
  }

  lemma DigitsValueAppend2(a: string, b: string)
    requires AllDigits(a) && AllDigits(b) && |b| == 2
    ensures AllDigits(a + b) && DigitsValue(a + b) == DigitsValue(a) * 100 + DigitsValue(b)
  {
    var x, y := b[0], b[1];
    DigitsValueSnoc(a, x);
    assert a + b == (a + [x]) + [y];
    DigitsValueSnoc(a + [x], y);
    DigitsValueSnoc([], x);
    assert b == [x] + [y];
    DigitsValueSnoc([x], y);
    var v, dx, dy := DigitsValue(a), DigitValue(x), DigitValue(y);
    assert DigitsValue(b) == dx * 10 + dy;
    assert DigitsValue(a + b) == (v * 10 + dx) * 10 + dy;
  }

  /** Python 2's `int(s)` in base 10 on a byte string: surrounding
      whitespace, an optional sign (whitespace may follow it), then one or
      more decimal digits; `None` is the `ValueError` every other string
      raises. Whitespace is the C `isspace` set, as for every byte string. */
  function ParseInt(s: string): (r: Option<int>)
    ensures r.Some? ==> |StripBytes(s)| > 0 && IsDigit(StripBytes(s)[|StripBytes(s)| - 1])
    ensures (forall i :: 0 <= i < |s| ==> !IsDigit(s[i])) ==> r.None?
  {
    var t := StripBytes(s);
    assert forall i :: 0 <= i < |t| ==> t[i] in s;
    ParseStripped(t)
  }

  /** `int` once the surrounding whitespace is gone. */
  function ParseStripped(t: string): (r: Option<int>)
    ensures r.Some? ==> |t| > 0 && IsDigit(t[|t| - 1])
    ensures (forall i :: 0 <= i < |t| ==> !IsDigit(t[i])) ==> r.None?
  {
    var signed := |t| > 0 && (t[0] == '+' || t[0] == '-');
    var body := if signed then t[Span(t, 1, IsRegexSpace)..] else t;
    if |body| > 0 && AllDigits(body) then
      assert body[|body| - 1] == t[|t| - 1];
      var magnitude: int := DigitsValue(body);
      var v := if signed && t[0] == '-' then 0 - magnitude else magnitude;
      Some(v)
    else None
  }

  /** The stripped text `int()` accepts: a sign of `sign` characters (none
      or one), `gap` whitespace characters after a sign, then one or more
      decimal digits, leading zeros allowed. */
  predicate IntShape(t: string, sign: nat, gap: nat) {
    && sign <= 1 && sign + gap < |t|
    && (sign == 1 ==> t[0] == '+' || t[0] == '-')
    && (sign == 0 ==> gap == 0)
    && (forall k :: sign <= k < sign + gap ==> IsRegexSpace(t[k]))
    && AllDigits(t[sign + gap..])
  }

  /** The value a text of that shape denotes. */
  function IntValue(t: string, sign: nat, gap: nat): int
    requires IntShape(t, sign, gap)
  {
    var magnitude := DigitsValue(t[sign + gap..]);
    if sign == 1 && t[0] == '-' then 0 - magnitude else magnitude
  }

  /** Every text of the accepted shape is read, with its value. */
  lemma ParseStrippedShape(t: string, sign: nat, gap: nat)
    requires IntShape(t, sign, gap)
    ensures ParseStripped(t) == Some(IntValue(t, sign, gap))
  {
    if sign == 1 {
      SpanExact(t, 1, 1 + gap, IsRegexSpace);
    } else {
      assert IsDigit(t[0]);
      assert t[0..] == t;
    }
  }

  /** Only texts of the accepted shape are read. */
  lemma ParseStrippedSound(t: string)
    requires ParseStripped(t).Some?
    ensures exists sign, gap :: IntShape(t, sign, gap) && ParseStripped(t).value == IntValue(t, sign, gap)
  {
    if |t| > 0 && (t[0] == '+' || t[0] == '-') {
      var e := Span(t, 1, IsRegexSpace);
      assert IntShape(t, 1, e - 1);
    } else {
      assert t[0..] == t;
      assert IntShape(t, 0, 0);
    }
  }

  /** Python 2's `int()` in base 10: accepted exactly when the stripped text
      has the accepted shape, and then it is that text's value. */
  lemma ParseIntMeaning(s: string)
    ensures ParseInt(s).Some? <==> exists sign, gap :: IntShape(StripBytes(s), sign, gap)
    ensures forall sign, gap :: IntShape(StripBytes(s), sign, gap) ==> ParseInt(s) == Some(IntValue(StripBytes(s), sign, gap))
  {
    var t := StripBytes(s);
    forall sign, gap | IntShape(t, sign, gap)
      ensures ParseInt(s) == Some(IntValue(t, sign, gap))
    {
      ParseStrippedShape(t, sign, gap);
    }
    if ParseInt(s).Some? {
      ParseStrippedSound(t);
    }
  }

  /** `str(n)` for any integer. */
  function ShowInt(n: int): string {
    if n < 0 then "-" + Show(-n) else Show(n)
  }

  /** `int(str(n)) == n`. */
  lemma ParseIntShowInt(n: int)
    ensures ParseInt(ShowInt(n)) == Some(n)
  {
    if n < 0 {
      ParseIntNegative(-n, ShowInt(n));
    } else {
      ParseIntNatural(n, ShowInt(n));
    }
  }

  lemma ParseIntNatural(n: nat, s: string)
    requires s == Show(n)
    ensures ParseInt(s) == Some(n)
  {
    ShowRoundTrip(n);
    assert IsDigit(s[0]) && IsDigit(s[|s| - 1]);
    StripUnchanged(s);
    assert ParseStripped(s) == Some(n);
  }

  lemma ParseIntNegative(m: nat, s: string)
    requires m > 0 && s == "-" + Show(m)
    ensures ParseInt(s) == Some(-(m as int))
  {
    var digits := Show(m);
    assert s[|s| - 1] == digits[|digits| - 1];
    StripUnchanged(s);
    NegativeStripped(m);
  }

  lemma NegativeStripped(m: nat)
    requires m > 0
    ensures ParseStripped("-" + Show(m)) == Some(-(m as int))
  {
    var digits := Show(m);
    var s := "-" + digits;
    ShowRoundTrip(m);
    SpanStops(s, 1);
    assert s[1..] == digits;
  }

  /** The unit separator U+001F is no byte-string whitespace, so `int()`
      rejects a number it precedes. */
  lemma UnitSeparatorRejected()
    ensures ParseInt("\U{1F}10").None?
  {
    StripUnchanged("\U{1F}10");
  }

  lemma SpanStops(s: string, i: nat)
    requires i < |s| && IsDigit(s[i])
    ensures Span(s, i, IsRegexSpace) == i
  {
  }

  lemma StripUnchanged(s: string)
    requires |s| > 0 && !IsRegexSpace(s[0]) && !IsRegexSpace(s[|s| - 1])
    ensures StripBytes(s) == s
  {
    assert Span(s, 0, IsRegexSpace) == 0;
    assert ContentEnd(s, 0, |s|, IsRegexSpace) == |s|;
  }
}
