/**
  The naive `datetime` values of the backup daemon, at second precision, and
  the fixed-width `%Y-%m-%d_%H-%M-%S` text form that names every artifact.

  Time as a number is counted in seconds since 0001-01-01 00:00:00 on the
  proleptic Gregorian calendar (the epoch of Python's `date.toordinal`, shifted
  by one day so that it starts at zero). That epoch falls on a midnight, so the
  start of a date's day is the instant minus its remainder modulo 86400.
*/
module Timestamp {
  import opened Wrappers

  const SecondsPerDay: int := 86400

  /** A calendar date and a time of day, with no time zone. */
  datatype DateTime = DateTime(year: int, month: int, day: int, hour: int, minute: int, second: int)

  predicate IsLeapYear(y: int) {
    y % 4 == 0 && (y % 100 != 0 || y % 400 == 0)
  }

  function DaysInMonth(y: int, m: int): (n: int)
    requires 1 <= m <= 12
    ensures 28 <= n <= 31
  {
    if m == 2 then (if IsLeapYear(y) then 29 else 28)
    else if m == 4 || m == 6 || m == 9 || m == 11 then 30
    else 31
  }

  /**
   * The instants the backup names carry: a real calendar day in years 1000 to
   * 9999, the part of `datetime`'s range where `%Y` prints four digits.
   */
  predicate Valid(d: DateTime) {
    && 1000 <= d.year <= 9999
    && 1 <= d.month <= 12
    && 1 <= d.day <= DaysInMonth(d.year, d.month)
    && 0 <= d.hour < 24
    && 0 <= d.minute < 60
    && 0 <= d.second < 60
  }

  type ValidDateTime = d: DateTime | Valid(d) witness DateTime(1970, 1, 1, 0, 0, 0)

  // ---------------------------------------------------------------------------
  // Instants

  function DaysBeforeYear(y: int): int {
    var p := y - 1;
    365 * p + p / 4 - p / 100 + p / 400
  }

  function DaysBeforeMonth(y: int, m: int): int
    requires 1 <= m <= 12
  {
    var cumulative := [0, 31, 59, 90, 120, 151, 181, 212, 243, 273, 304, 334];
    cumulative[m - 1] + (if m > 2 && IsLeapYear(y) then 1 else 0)
  }

  /** Whole days between the epoch and the start of the date's day. */
  function DayNumber(d: ValidDateTime): int {
    DaysBeforeYear(d.year) + DaysBeforeMonth(d.year, d.month) + d.day - 1
  }

  /** Seconds since the start of the date's own day. */
  function SecondOfDay(d: ValidDateTime): (s: int)
    ensures 0 <= s < SecondsPerDay
  {
    d.hour * 3600 + d.minute * 60 + d.second
  }

  /** The instant `d` names, in seconds since the epoch. */
  function Seconds(d: ValidDateTime): int {
    DayNumber(d) * SecondsPerDay + SecondOfDay(d)
  }

  /** `d.replace(hour=0, minute=0, second=0, microsecond=0)`. */
  function Midnight(d: ValidDateTime): (m: ValidDateTime)
    ensures m.year == d.year && m.month == d.month && m.day == d.day
    ensures m.hour == 0 && m.minute == 0 && m.second == 0
  {
    d.(hour := 0, minute := 0, second := 0)
  }

  /** The start of a date's day lies at most one day minus a second before it:
      the offset is exactly the instant's remainder modulo a day. */
  lemma MidnightOffset(d: ValidDateTime)
    ensures Seconds(d) - Seconds(Midnight(d)) == Seconds(d) % SecondsPerDay
    ensures 0 <= Seconds(d) - Seconds(Midnight(d)) < SecondsPerDay
  {
    var n := DayNumber(d);
    assert DayNumber(Midnight(d)) == n;
    assert SecondOfDay(Midnight(d)) == 0;
    DayRemainder(n, SecondOfDay(d));
  }

  /** The remainder of an instant modulo a day is its time of day. */
  lemma DayRemainder(n: int, r: int)
    requires 0 <= r < SecondsPerDay
    ensures (n * SecondsPerDay + r) % SecondsPerDay == r
  {
    var x := n * SecondsPerDay + r;
    var q := x / SecondsPerDay;
    assert x == q * SecondsPerDay + x % SecondsPerDay;
    assert (q - n) * SecondsPerDay == r - x % SecondsPerDay;
    assert q == n;
  }

  // ---------------------------------------------------------------------------
  // Text form

  predicate IsDigit(c: char) {
    '0' <= c <= '9'
  }

  function DigitChar(n: int): (c: char)
    requires 0 <= n < 10
    ensures IsDigit(c)
  {
    ('0' as int + n) as char
  }

  function DigitValue(c: char): (n: int)
    requires IsDigit(c)
    ensures 0 <= n < 10
  {
    c as int - '0' as int
  }

  predicate AllDigits(s: string) {
    forall i :: 0 <= i < |s| ==> IsDigit(s[i])
  }

  /** A number below 100 as two zero-padded digits (`%m`, `%d`, `%H`, `%M`, `%S`). */
  function Pad2(n: int): (s: string)
    requires 0 <= n < 100
    ensures |s| == 2 && AllDigits(s)
  {
    [DigitChar(n / 10), DigitChar(n % 10)]
  }

  /** A number below 10000 as four zero-padded digits (`%Y`). */
  function Pad4(n: int): (s: string)
    requires 0 <= n < 10000
    ensures |s| == 4 && AllDigits(s)
  {
    Pad2(n / 100) + Pad2(n % 100)
  }

  function Value2(s: string): int
    requires |s| == 2 && AllDigits(s)
  {
    DigitValue(s[0]) * 10 + DigitValue(s[1])
  }

  function Value4(s: string): int
    requires |s| == 4 && AllDigits(s)
  {
    Value2(s[..2]) * 100 + Value2(s[2..])
  }

  /** `strftime("%Y-%m-%d_%H-%M-%S")`. */
  function Format(d: ValidDateTime): string {
    FormatDate(d) + FormatTime(d)
  }

  /** The `%Y-%m-%d_` half of the text form. */
  function FormatDate(d: ValidDateTime): (s: string)
    ensures |s| == 11
  {
    Pad4(d.year) + "-" + Pad2(d.month) + "-" + Pad2(d.day) + "_"
  }

  /** The `%H-%M-%S` half of the text form. */
  function FormatTime(d: ValidDateTime): (s: string)
    ensures |s| == 8
  {
    Pad2(d.hour) + "-" + Pad2(d.minute) + "-" + Pad2(d.second)
  }

  /** Where each field of `d` sits in its text form. */
  lemma FormatFields(d: ValidDateTime)
    ensures |Format(d)| == 19
    ensures Format(d)[0..4] == Pad4(d.year)
    ensures Format(d)[5..7] == Pad2(d.month)
    ensures Format(d)[8..10] == Pad2(d.day)
    ensures Format(d)[11..13] == Pad2(d.hour)
    ensures Format(d)[14..16] == Pad2(d.minute)
    ensures Format(d)[17..19] == Pad2(d.second)
    ensures Format(d)[4] == '-' && Format(d)[7] == '-' && Format(d)[10] == '_'
    ensures Format(d)[13] == '-' && Format(d)[16] == '-'
  {
    var a, b := FormatDate(d), FormatTime(d);
    var s := a + b;
    assert s[..11] == a && s[11..] == b;
    assert a[0..4] == Pad4(d.year) && a[5..7] == Pad2(d.month) && a[8..10] == Pad2(d.day);
    assert b[0..2] == Pad2(d.hour) && b[3..5] == Pad2(d.minute) && b[6..8] == Pad2(d.second);
    assert s[0..4] == a[0..4] && s[5..7] == a[5..7] && s[8..10] == a[8..10];
    assert s[11..13] == b[0..2] && s[14..16] == b[3..5] && s[17..19] == b[6..8];
  }

  /** The positions of the five separators in the text form. */
  predicate IsSeparatorIndex(i: int) {
    i == 4 || i == 7 || i == 10 || i == 13 || i == 16
  }

  /** The text has the shape `DDDD-DD-DD_DD-DD-DD`. */
  predicate WellShaped(s: string) {
    && |s| == 19
    && s[4] == '-' && s[7] == '-' && s[10] == '_' && s[13] == '-' && s[16] == '-'
    && forall i :: 0 <= i < 19 && !IsSeparatorIndex(i) ==> IsDigit(s[i])
  }

  /** `datetime.strptime(s, "%Y-%m-%d_%H-%M-%S")` on the zero-padded form:
      `None` where strptime raises `ValueError`. */
  function Parse(s: string): (r: Option<ValidDateTime>)
    ensures r.Some? ==> WellShaped(s)
  {
    if !WellShaped(s) then None
    else
      var d := DateTime(Value4(s[0..4]), Value2(s[5..7]), Value2(s[8..10]),
                        Value2(s[11..13]), Value2(s[14..16]), Value2(s[17..19]));
      if Valid(d) then Some(d) else None
  }

  lemma Pad2Value(n: int)
    requires 0 <= n < 100
    ensures Value2(Pad2(n)) == n
  {
  }

  lemma Value2Pad(s: string)
    requires |s| == 2 && AllDigits(s)
    ensures Pad2(Value2(s)) == s
  {
    var a, b := DigitValue(s[0]), DigitValue(s[1]);
    assert (a * 10 + b) / 10 == a && (a * 10 + b) % 10 == b;
    assert DigitChar(a) == s[0] && DigitChar(b) == s[1];
  }

  lemma Pad4Value(n: int)
    requires 0 <= n < 10000
    ensures Value4(Pad4(n)) == n
  {
    var s := Pad4(n);
    assert s[..2] == Pad2(n / 100) && s[2..] == Pad2(n % 100);
    Pad2Value(n / 100);
    Pad2Value(n % 100);
  }

  lemma Value4Pad(s: string)
    requires |s| == 4 && AllDigits(s)
    ensures Pad4(Value4(s)) == s
  {
    var hi, lo := Value2(s[..2]), Value2(s[2..]);
    assert 0 <= lo < 100 && 0 <= hi < 100;
    assert (hi * 100 + lo) / 100 == hi && (hi * 100 + lo) % 100 == lo;
    Value2Pad(s[..2]);
    Value2Pad(s[2..]);
    assert s == s[..2] + s[2..];
  }

  /** The formatted text is always 19 characters: zero-padded digit fields
      and the separators `-`, `-`, `_`, `-`, `-`. */
  lemma FormatShape(d: ValidDateTime)
    ensures WellShaped(Format(d))
    ensures Format(d)[10] == '_'
  {
    var s := Format(d);
    FormatFields(d);
    forall i | 0 <= i < 19 && !IsSeparatorIndex(i)
      ensures IsDigit(s[i])
    {
      if i < 4 { assert s[i] == s[0..4][i]; }
      else if i < 7 { assert s[i] == s[5..7][i - 5]; }
      else if i < 10 { assert s[i] == s[8..10][i - 8]; }
      else if i < 13 { assert s[i] == s[11..13][i - 11]; }
      else if i < 16 { assert s[i] == s[14..16][i - 14]; }
      else { assert s[i] == s[17..19][i - 17]; }
    }
  }

  /** Parsing what was formatted gives back the same date, to the second. */
  lemma ParseFormat(d: ValidDateTime)
    ensures Parse(Format(d)) == Some(d)
  {
    FormatShape(d);
    FormatFields(d);
    Pad4Value(d.year);
    Pad2Value(d.month);
    Pad2Value(d.day);
    Pad2Value(d.hour);
    Pad2Value(d.minute);
    Pad2Value(d.second);
  }

  /** Whatever parses is a valid date whose text form is exactly the input. */
  lemma FormatParse(s: string)
    requires Parse(s).Some?
    ensures Format(Parse(s).value) == s
  {
    var d := Parse(s).value;
    var t := Format(d);
    FormatFields(d);
    Value4Pad(s[0..4]);
    Value2Pad(s[5..7]);
    Value2Pad(s[8..10]);
    Value2Pad(s[11..13]);
    Value2Pad(s[14..16]);
    Value2Pad(s[17..19]);
    forall i | 0 <= i < 19
      ensures t[i] == s[i]
    {
      if i < 4 { assert t[i] == t[0..4][i] && s[i] == s[0..4][i]; }
      else if 4 < i < 7 { assert t[i] == t[5..7][i - 5] && s[i] == s[5..7][i - 5]; }
      else if 7 < i < 10 { assert t[i] == t[8..10][i - 8] && s[i] == s[8..10][i - 8]; }
      else if 10 < i < 13 { assert t[i] == t[11..13][i - 11] && s[i] == s[11..13][i - 11]; }
      else if 13 < i < 16 { assert t[i] == t[14..16][i - 14] && s[i] == s[14..16][i - 14]; }
      else if 16 < i { assert t[i] == t[17..19][i - 17] && s[i] == s[17..19][i - 17]; }
    }
  }

  /** Every parsable text carries an underscore at position 10. */
  lemma ParsedHasUnderscore(s: string)
    requires Parse(s).Some?
    ensures '_' in s
  {
    assert s[10] == '_';
  }
}
