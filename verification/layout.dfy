/**
 * Go's reference layout "2006-01-02" (the full-date shape of section 5.6 of
 * RFC 3339), in both directions: `time.Parse` and `Time.Format` restricted to
 * this one layout, in UTC.
 */
module DateLayout {
  import opened Errors
  import opened Decimal
  import opened Calendar

  /** Four digits, '-', two digits, '-', two digits, and nothing more. */
  predicate Shaped(s: string) {
    |s| == 10 && AllDigits(s[..4]) && s[4] == '-' && AllDigits(s[5..7]) && s[7] == '-' && AllDigits(s[8..])
  }

  /**
   * `time.Parse("2006-01-02", s)`: the year, month and day fields are fixed
   * width and all digits, the month must be 1..12, the day must exist in that
   * month of that year, and no text may follow. None stands for the parse error.
   */
  function Parse(s: string): (r: Option<Date>)
    ensures r.Some? ==> ValidDate(r.value) && 0 <= r.value.year <= 9999
  {
    if Shaped(s) then
      var d := Date(ValueOf(s[..4]), ValueOf(s[5..7]), ValueOf(s[8..]));
      if 1 <= d.month <= 12 && 1 <= d.day <= DaysIn(d.month, d.year) then Some(d) else None
    else
      None
  }

  /** `Time.Format("2006-01-02")` of a time on date `d`: ten characters for a year from 0 to 9999. */
  function Format(d: Date): (s: string)
    ensures ValidDate(d) && 0 <= d.year <= 9999 ==> |s| == 10
  {
    FormatInt(d.year, 4) + "-" + FormatInt(d.month, 2) + "-" + FormatInt(d.day, 2)
  }

  /** `t.Format("2006-01-02")` for an instant in UTC. */
  function FormatInstant(t: Instant): (s: string)
    ensures 0 <= DateOf(t).year <= 9999 ==> |s| == 10
  {
    Format(DateOf(t))
  }

  /** Formatting a parsed key gives back the key, character for character. */
  lemma FormatParse(s: string)
    requires Parse(s).Some?
    ensures Format(Parse(s).value) == s
  {
    var d := Parse(s).value;
    DigitsOfValueOf(s[..4]);
    DigitsOfValueOf(s[5..7]);
    DigitsOfValueOf(s[8..]);
    assert FormatInt(d.year, 4) == s[..4];
    assert FormatInt(d.month, 2) == s[5..7];
    assert FormatInt(d.day, 2) == s[8..];
    assert s == s[..4] + [s[4]] + s[5..7] + [s[7]] + s[8..];
  }

  /** Every valid date of years 0 to 9999 parses back from its formatted text. */
  lemma ParseFormat(d: Date)
    requires ValidDate(d) && 0 <= d.year <= 9999
    ensures Parse(Format(d)) == Some(d)
  {
    var s := Format(d);
    FormatFields(d);
    ValueOfDigitsOf(d.year, 4);
    ValueOfDigitsOf(d.month, 2);
    ValueOfDigitsOf(d.day, 2);
    assert Shaped(s);
  }

  /** The formatted text of a date of years 0 to 9999 has its three fields at fixed places. */
  lemma FormatFields(d: Date)
    requires ValidDate(d) && 0 <= d.year <= 9999
    ensures var s := Format(d);
      && |s| == 10 && s[4] == '-' && s[7] == '-'
      && s[..4] == DigitsOf(d.year, 4) && s[5..7] == DigitsOf(d.month, 2) && s[8..] == DigitsOf(d.day, 2)
  {
    var y, m, dd := DigitsOf(d.year, 4), DigitsOf(d.month, 2), DigitsOf(d.day, 2);
    assert Format(d) == y + "-" + m + "-" + dd;
  }

  /** Two keys that parse to the same date are the same key. */
  lemma ParseInjective(s: string, t: string)
    requires Parse(s).Some? && Parse(s) == Parse(t)
    ensures s == t
  {
    FormatParse(s);
    FormatParse(t);
  }

  /** Formatting the instant a key parses to (at UTC midnight) gives back the key. */
  lemma FormatDayStart(s: string)
    requires Parse(s).Some?
    ensures FormatInstant(DayStart(Parse(s).value)) == s
  {
    DateOfDayStart(Parse(s).value);
    FormatParse(s);
  }
}
