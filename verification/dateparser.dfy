/** `parse_date`: an article's `DD.MM.YYYY` publication date rendered as ISO
    `YYYY-MM-DD`, together with the parsed date. */
module DateParser {
  import opened Wrappers
  import opened Calendar
  import opened Strptime

  /** The pair `parse_date` returns on success. */
  datatype Parsed = Parsed(iso: string, date: Date)

  /** `parse_date(text)`. When `strptime` raises `ValueError`, the handler
      binds only `date`, so reading `date_obj` in the `return` raises
      `UnboundLocalError`: a failed parse never yields `None`. */
  function ParseDate(text: string): (r: Result<Parsed, Raised>)
    ensures r.Success? <==> ParseNumeric(text).Some?
    ensures r.Success? ==> Valid(r.value.date) && Some(r.value.date) == ParseNumeric(text)
    ensures r.Success? ==> |r.value.iso| == 10 && IsoParse(r.value.iso) == Some(r.value.date)
    ensures r.Failure? ==> r.error == UnboundLocalError
  {
    match ParseNumeric(text)
    case None => Failure(UnboundLocalError)
    case Some(d) =>
      IsoRoundTrip(d);
      Success(Parsed(IsoFormat(d), d))
  }

  /** A zero-padded `DD.MM.YYYY` date comes back as its ISO rendering. */
  lemma ParseDateRoundTrip(d: Date)
    requires Valid(d)
    ensures ParseDate(NumericText(d)) == Success(Parsed(IsoFormat(d), d))
  {
    ParseNumericRoundTrip(d);
  }

  /** Two texts that parse give the same ISO string exactly when they denote
      the same day. */
  lemma ParseDateIsoIff(a: string, b: string)
    requires ParseDate(a).Success? && ParseDate(b).Success?
    ensures ParseDate(a).value.iso == ParseDate(b).value.iso <==> ParseDate(a).value.date == ParseDate(b).value.date
  {
    var x, y := ParseDate(a).value, ParseDate(b).value;
    if x.iso == y.iso {
      IsoInjective(x.date, y.date);
    }
  }
}
