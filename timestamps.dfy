/** Timestamps as the driver returns them (broken down in UTC) and their
    rendering by Go's time.Format, which the literal encoder puts between
    quotes.

    The encoder's layout is "2006-01-02 03:04:05". In Go's layout language
    "03" is the hour on a 12-hour clock, and the layout has no AM/PM field, so
    a morning time and the afternoon time twelve hours later print alike.
    FormatAsWritten models that layout, and the encoder uses it. Format is
    the same layout with the 24-hour field "15", which is what a timestamp
    literal needs: its text determines the time to the second. */
module Timestamps {
  import opened Wrappers
  import opened GoText

  type Month = m: int | 1 <= m <= 12 witness 1
  type Day = d: int | 1 <= d <= 31 witness 1
  type Hour = h: int | 0 <= h < 24
  type Minute = m: int | 0 <= m < 60
  type Second = s: int | 0 <= s < 60
  type Nanosecond = n: int | 0 <= n < 1_000_000_000

  /** A time.Time in UTC, field by field. */
  datatype Timestamp = Timestamp(year: int, month: Month, day: Day,
                                 hour: Hour, minute: Minute, second: Second,
                                 nanosecond: Nanosecond)

  /** time.Time's zero value: January 1 of year 1, 00:00:00 UTC. */
  predicate IsZero(t: Timestamp) {
    t == Timestamp(1, 1, 1, 0, 0, 0, 0)
  }

  /** The calendar fields a layout with second precision shows. */
  datatype Fields = Fields(year: int, month: int, day: int, hour: int, minute: int, second: int)

  function FieldsOf(t: Timestamp): Fields {
    Fields(t.year, t.month, t.day, t.hour, t.minute, t.second)
  }

  /** A two-digit field ("01", "02", "04", "05", "15" in a layout). */
  function Two(n: int): (s: string)
    requires 0 <= n < 100
    ensures |s| == 2 && AllDigits(s)
  {
    [DigitChar(n / 10), DigitChar(n % 10)]
  }

  /** The magnitude of a year, padded with zeros to at least four digits. */
  function Padded(m: nat): (s: string)
    ensures 4 <= |s| && AllDigits(s) && DigitsValue(s) == m
  {
    var digits := Digits(m);
    DigitsValueOfDigits(m);
    if |digits| < 4 then
      DigitsValueLeadingZeros(4 - |digits|, digits);
      Zeros(4 - |digits|) + digits
    else digits
  }

  /** The year field "2006": a sign when negative, then the padded magnitude. */
  function Year(y: int): (s: string)
    ensures 4 <= |s|
  {
    if y < 0 then "-" + Padded(-y) else Padded(y)
  }

  /** The "03" field: the hour on a 12-hour clock, 12 for noon and midnight. */
  function Hour12(h: Hour): (r: int)
    ensures 1 <= r <= 12
  {
    if h % 12 == 0 then 12 else h % 12
  }

  /** time.Format(t, "2006-01-02 03:04:05"), the layout the encoder is written
      with: the year, then the clock with the 12-hour hour. */
  function FormatAsWritten(t: Timestamp): string {
    Year(t.year) + ClockWith(t, Hour12(t.hour))
  }

  /** The 12-hour layout prints a time before noon and the time twelve hours
      later identically, though they are different instants; midnight and
      noon both print "12". */
  lemma AsWrittenConflatesMorningAndAfternoon(t: Timestamp)
    requires 0 <= t.hour < 12
    ensures t != t.(hour := t.hour + 12)
    ensures FormatAsWritten(t) == FormatAsWritten(t.(hour := t.hour + 12))
  {
    var u := t.(hour := t.hour + 12);
    assert Hour12(u.hour) == Hour12(t.hour) by {
      assert u.hour % 12 == t.hour % 12;
    }
  }

  /** time.Format(t, "2006-01-02 15:04:05"), the 24-hour layout. */
  function Format(t: Timestamp): string {
    Year(t.year) + Clock(t)
  }

  /** The fixed-width part of the 24-hour layout after the year: "-01-02 15:04:05". */
  function Clock(t: Timestamp): (s: string)
    ensures |s| == 15
  {
    ClockWith(t, t.hour)
  }

  /** The part of either layout after the year, with the given hour field. */
  function ClockWith(t: Timestamp, hour: int): (s: string)
    requires 0 <= hour < 100
    ensures |s| == 15
  {
    "-" + Two(t.month) + "-" + Two(t.day) + " " + Two(hour) + ":" + Two(t.minute) + ":" + Two(t.second)
  }

  function TwoValue(a: char, b: char): int
    requires IsDigit(a) && IsDigit(b)
  {
    DigitValue(a) * 10 + DigitValue(b)
  }

  function ParseYear(s: string): Option<int> {
    if 0 < |s| && s[0] == '-' then
      if 1 < |s| && AllDigits(s[1..]) then Some(-(DigitsValue(s[1..]) as int)) else None
    else if 0 < |s| && AllDigits(s) then Some(DigitsValue(s))
    else None
  }

  /** Reads "-MM-DD HH:MM:SS" into the year's fields. */
  function ParseClock(year: int, c: string): Option<Fields>
    requires |c| == 15
  {
    if c[0] == '-' && c[3] == '-' && c[6] == ' ' && c[9] == ':' && c[12] == ':'
       && IsDigit(c[1]) && IsDigit(c[2]) && IsDigit(c[4]) && IsDigit(c[5]) && IsDigit(c[7])
       && IsDigit(c[8]) && IsDigit(c[10]) && IsDigit(c[11]) && IsDigit(c[13]) && IsDigit(c[14])
    then
      Some(Fields(year, TwoValue(c[1], c[2]), TwoValue(c[4], c[5]), TwoValue(c[7], c[8]),
                  TwoValue(c[10], c[11]), TwoValue(c[13], c[14])))
    else None
  }

  /** Reads "YYYY-MM-DD HH:MM:SS" back into its fields. */
  function ParseFormatted(s: string): Option<Fields> {
    if |s| < 19 then None
    else
      match ParseYear(s[..|s| - 15])
      case None => None
      case Some(y) => ParseClock(y, s[|s| - 15..])
  }

  lemma TwoValueOfTwo(n: int)
    requires 0 <= n < 100
    ensures TwoValue(Two(n)[0], Two(n)[1]) == n
  {
  }

  lemma YearRoundTrip(y: int)
    ensures ParseYear(Year(y)) == Some(y)
  {
    if y < 0 {
      assert Year(y)[1..] == Padded(-y);
    }
  }

  lemma ClockRoundTrip(t: Timestamp, hour: int)
    requires 0 <= hour < 100
    ensures ParseClock(t.year, ClockWith(t, hour)) == Some(FieldsOf(t).(hour := hour))
  {
    TwoValueOfTwo(t.month);
    TwoValueOfTwo(t.day);
    TwoValueOfTwo(hour);
    TwoValueOfTwo(t.minute);
    TwoValueOfTwo(t.second);
  }

  /** Either layout's text reads back as the year, month, day, minute and
      second, and the hour field it prints. */
  lemma LayoutRoundTrip(t: Timestamp, hour: int)
    requires 0 <= hour < 100
    ensures ParseFormatted(Year(t.year) + ClockWith(t, hour)) == Some(FieldsOf(t).(hour := hour))
  {
    var s := Year(t.year) + ClockWith(t, hour);
    assert s[..|s| - 15] == Year(t.year);
    assert s[|s| - 15..] == ClockWith(t, hour);
    YearRoundTrip(t.year);
    ClockRoundTrip(t, hour);
  }

  /** The 24-hour text determines every field it shows: parsing it gives them back. */
  lemma FormatRoundTrip(t: Timestamp)
    ensures ParseFormatted(Format(t)) == Some(FieldsOf(t))
  {
    LayoutRoundTrip(t, t.hour);
  }

  /** The text the encoder prints reads back as every field but the hour,
      which comes back on the 12-hour clock. */
  lemma FormatAsWrittenReadsBack(t: Timestamp)
    ensures ParseFormatted(FormatAsWritten(t)) == Some(FieldsOf(t).(hour := Hour12(t.hour)))
  {
    LayoutRoundTrip(t, Hour12(t.hour));
  }

  /** Exactly what the 12-hour layout loses: two timestamps print alike if
      and only if they agree to the second except that their hours may
      differ by twelve. */
  lemma FormatAsWrittenEqualIff(t: Timestamp, u: Timestamp)
    ensures FormatAsWritten(t) == FormatAsWritten(u)
            <==> FieldsOf(t).(hour := 0) == FieldsOf(u).(hour := 0) && t.hour % 12 == u.hour % 12
  {
    if FormatAsWritten(t) == FormatAsWritten(u) {
      FormatAsWrittenReadsBack(t);
      FormatAsWrittenReadsBack(u);
      assert Hour12(t.hour) == Hour12(u.hour);
    }
    if FieldsOf(t).(hour := 0) == FieldsOf(u).(hour := 0) && t.hour % 12 == u.hour % 12 {
      assert Hour12(t.hour) == Hour12(u.hour);
    }
  }

  /** The text of either layout holds digits, dashes, a space and colons,
      never a quote. */
  lemma LayoutHasNoQuote(t: Timestamp, hour: int)
    requires 0 <= hour < 100
    ensures '\'' !in Year(t.year) + ClockWith(t, hour)
  {
    YearHasNoQuote(t.year);
    TwoHasNoQuote(t.month);
    TwoHasNoQuote(t.day);
    TwoHasNoQuote(hour);
    TwoHasNoQuote(t.minute);
    TwoHasNoQuote(t.second);
  }

  lemma FormatHasNoQuote(t: Timestamp)
    ensures '\'' !in Format(t)
  {
    LayoutHasNoQuote(t, t.hour);
  }

  /** The text the encoder prints needs no escaping between quotes. */
  lemma FormatAsWrittenHasNoQuote(t: Timestamp)
    ensures '\'' !in FormatAsWritten(t)
  {
    LayoutHasNoQuote(t, Hour12(t.hour));
  }

  lemma YearHasNoQuote(y: int)
    ensures '\'' !in Year(y)
  {
    var p := Padded(if y < 0 then -y else y);
    assert forall i :: 0 <= i < |p| ==> p[i] != '\'';
  }

  lemma TwoHasNoQuote(n: int)
    requires 0 <= n < 100
    ensures '\'' !in Two(n)
  {
  }

  /** Consequently two timestamps with the same 24-hour text agree to the second. */
  lemma FormatInjective(t: Timestamp, u: Timestamp)
    requires Format(t) == Format(u)
    ensures FieldsOf(t) == FieldsOf(u)
  {
    FormatRoundTrip(t);
    FormatRoundTrip(u);
  }
}
