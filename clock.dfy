/**
 * Wall-clock instants as Python's `datetime` holds them, the minute-resolution
 * text form `%d/%m/%Y %H:%M` used both for the sample's display string and for
 * the process log's line stamps, and the whole-minute age between two instants.
 */
module Clock {
  import opened Wrappers
  import opened Strings

  datatype DateTime = DateTime(year: int, month: int, day: int,
                               hour: int, minute: int, second: int, microsecond: int)

  predicate IsLeapYear(y: int)
  {
    y % 4 == 0 && (y % 100 != 0 || y % 400 == 0)
  }

  function DaysInMonth(y: int, m: int): (n: int)
    requires 1 <= m <= 12
    ensures 28 <= n <= 31
  {
    if m == 2 then (if IsLeapYear(y) then 29 else 28)
    else if m == 4 || m == 6 || m == 9 || m == 11 then 30
    else 31
  }

  /** The ranges `datetime` enforces on its fields. */
  predicate ValidDateTime(t: DateTime)
  {
    && 1 <= t.year <= 9999
    && 1 <= t.month <= 12
    && 1 <= t.day <= DaysInMonth(t.year, t.month)
    && 0 <= t.hour < 24
    && 0 <= t.minute < 60
    && 0 <= t.second < 60
    && 0 <= t.microsecond < 1000000
  }

  /** An instant `datetime` can hold. */
  type Instant = t: DateTime | ValidDateTime(t) witness DateTime(1, 1, 1, 0, 0, 0, 0)

  function DaysBeforeYear(y: int): int
    requires y >= 1
  {
    var p := y - 1;
    365 * p + p / 4 - p / 100 + p / 400
  }

  function DaysBeforeMonth(y: int, m: int): int
    requires 1 <= m <= 12
  {
    if m == 1 then 0 else DaysBeforeMonth(y, m - 1) + DaysInMonth(y, m - 1)
  }

  /** Python's `date.toordinal()`: 1 January of year 1 is day 1. */
  function Ordinal(t: Instant): int
  {
    DaysBeforeYear(t.year) + DaysBeforeMonth(t.year, t.month) + t.day
  }

  const MicrosPerMinute: int := 60000000

  /** The instant as microseconds on one linear scale; differences of these are `timedelta`s. */
  function ToMicros(t: Instant): int
  {
    ((((Ordinal(t) * 24 + t.hour) * 60 + t.minute) * 60 + t.second) * 1000000) + t.microsecond
  }

  /**
   * `int(abs((a - b).total_seconds()) / 60)`: the distance between two instants
   * truncated to whole minutes.
   */
  function Age(a: Instant, b: Instant): (minutes: nat)
  {
    var d := ToMicros(a) - ToMicros(b);
    (if d < 0 then -d else d) / 60000000
  }

  /** The age is the distance in whole minutes, dropping the part-minute left over. */
  lemma AgeIsTruncatedDistance(a: Instant, b: Instant)
    ensures var d := ToMicros(a) - ToMicros(b);
            var dist := if d < 0 then -d else d;
            Age(a, b) * MicrosPerMinute <= dist < (Age(a, b) + 1) * MicrosPerMinute
  {
  }

  /** The age does not depend on which of the two instants is the later. */
  lemma AgeSymmetric(a: Instant, b: Instant)
    ensures Age(a, b) == Age(b, a)
  {
  }

  // ---------------------------------------------------------------------
  // The text form DD/MM/YYYY HH:MM
  // ---------------------------------------------------------------------

  function DigitChar(n: nat): (c: char)
    requires n < 10
    ensures IsDigit(c) && DigitValue(c) == n
  {
    (('0' as int) + n) as char
  }

  /** Zero-padded two-digit form of `n`, as `%d`, `%m`, `%H` and `%M` print. */
  function Pad2(n: int): (s: string)
    requires 0 <= n < 100
    ensures |s| == 2 && AllDigits(s) && DigitsValue(s) == n
  {
    var s := [DigitChar(n / 10), DigitChar(n % 10)];
    assert s[..1] == [s[0]];
    s
  }

  /** Zero-padded four-digit form of `n`, as `%Y` prints. */
  function Pad4(n: int): (s: string)
    requires 0 <= n < 10000
    ensures |s| == 4 && AllDigits(s) && DigitsValue(s) == n
  {
    var s := Pad2(n / 100) + Pad2(n % 100);
    DigitsValueSplit(Pad2(n / 100), Pad2(n % 100));
    s
  }

  /** `datetime.strftime(t, '%d/%m/%Y %H:%M')`. */
  function FormatTimestamp(t: Instant): (s: string)
    ensures |s| == 16
  {
    Pad2(t.day) + "/" + Pad2(t.month) + "/" + Pad4(t.year) + " " + Pad2(t.hour) + ":" + Pad2(t.minute)
  }

  /** The numeric value of the digit field `s[i..j]`, if it is all digits. */
  function Field(s: string, i: nat, j: nat): (r: Option<int>)
    requires i <= j <= |s|
    ensures r.Some? ==> 0 <= r.value < Pow10(j - i)
  {
    if AllDigits(s[i..j]) then Some(DigitsValue(s[i..j])) else None
  }

  /**
   * `datetime.strptime(s, '%d/%m/%Y %H:%M')` on the canonical layout: two-digit
   * day, month, hour and minute, four-digit year, one space; the whole text
   * must be consumed and the date must exist. A None is strptime's ValueError.
   */
  function ParseTimestamp(s: string): (r: Option<Instant>)
    ensures r.Some? ==> r.value.second == 0 && r.value.microsecond == 0
  {
    if |s| != 16 || s[2] != '/' || s[5] != '/' || s[10] != ' ' || s[13] != ':' then None
    else
      match (Field(s, 0, 2), Field(s, 3, 5), Field(s, 6, 10), Field(s, 11, 13), Field(s, 14, 16))
      case (Some(d), Some(mo), Some(y), Some(h), Some(mi)) =>
        if 1 <= y && 1 <= mo <= 12 && 1 <= d <= DaysInMonth(y, mo) && h < 24 && mi < 60
        then Some(DateTime(y, mo, d, h, mi, 0, 0))
        else None
      case _ => None
  }

  /** The instant with its seconds and microseconds dropped: what survives printing. */
  function TruncateToMinute(t: Instant): Instant
  {
    t.(second := 0, microsecond := 0)
  }

  /** Printing an instant and reading it back gives the instant to the minute. */
  lemma FormatThenParse(t: Instant)
    ensures ParseTimestamp(FormatTimestamp(t)) == Some(TruncateToMinute(t))
  {
    var s := FormatTimestamp(t);
    assert s[0..2] == Pad2(t.day);
    assert s[3..5] == Pad2(t.month);
    assert s[6..10] == Pad4(t.year);
    assert s[11..13] == Pad2(t.hour);
    assert s[14..16] == Pad2(t.minute);
  }

  lemma {:induction false} TwoDigitsCanonical(s: string)
    requires |s| == 2 && AllDigits(s)
    ensures Pad2(DigitsValue(s)) == s
  {
    assert s[..1] == [s[0]];
    assert s == [s[0], s[1]];
  }

  lemma {:induction false} FourDigitsCanonical(s: string)
    requires |s| == 4 && AllDigits(s)
    ensures Pad4(DigitsValue(s)) == s
  {
    var hi, lo := s[..2], s[2..];
    assert hi + lo == s;
    DigitsValueSplit(hi, lo);
    var v := DigitsValue(s);
    assert v == DigitsValue(hi) * 100 + DigitsValue(lo);
    assert v / 100 == DigitsValue(hi) && v % 100 == DigitsValue(lo);
    TwoDigitsCanonical(hi);
    TwoDigitsCanonical(lo);
  }

  /** Every accepted text is exactly the printed form of what it parses to. */
  lemma ParseThenFormat(s: string)
    requires ParseTimestamp(s).Some?
    ensures FormatTimestamp(ParseTimestamp(s).value) == s
  {
    var t := ParseTimestamp(s).value;
    TwoDigitsCanonical(s[0..2]);
    TwoDigitsCanonical(s[3..5]);
    FourDigitsCanonical(s[6..10]);
    TwoDigitsCanonical(s[11..13]);
    TwoDigitsCanonical(s[14..16]);
    var f := FormatTimestamp(t);
    assert f == s[0..2] + "/" + s[3..5] + "/" + s[6..10] + " " + s[11..13] + ":" + s[14..16];
    assert f == s;
  }

  /** An instant lies less than one minute after its printed (truncated) form. */
  lemma {:induction false} TruncateWithinMinute(t: Instant)
    ensures 0 <= ToMicros(t) - ToMicros(TruncateToMinute(t)) < MicrosPerMinute
    ensures Age(TruncateToMinute(t), t) == 0
  {
  }
}
