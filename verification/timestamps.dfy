/**
 * Wall-clock times at minute resolution, written and read with the format
 * `%Y-%m-%d-%H-%M` (`strftime` in the logger, `strptime` in the plotter).
 */
module Timestamps {
  import opened Wrappers
  import opened PyText
  import opened PyInt

  datatype Date = Date(year: int, month: int, day: int)

  /** A `datetime` whose seconds and microseconds are zero. */
  datatype Timestamp = Timestamp(year: int, month: int, day: int, hour: int, minute: int)

  /** `t.date()`. */
  function DateOf(t: Timestamp): Date
  {
    Date(t.year, t.month, t.day)
  }

  /** `t.replace(minute=0, second=0, microsecond=0)`. */
  function HourOf(t: Timestamp): (h: Timestamp)
    ensures DateOf(h) == DateOf(t) && h.hour == t.hour && h.minute == 0
  {
    t.(minute := 0)
  }

  predicate IsLeapYear(y: int)
  {
    y % 4 == 0 && (y % 100 != 0 || y % 400 == 0)
  }

  function DaysInMonth(y: int, m: int): int
    requires 1 <= m <= 12
  {
    if m == 2 then (if IsLeapYear(y) then 29 else 28)
    else if m == 4 || m == 6 || m == 9 || m == 11 then 30
    else 31
  }

  /** The values a `datetime` accepts (years 1 to 9999). */
  predicate Valid(t: Timestamp)
  {
    && 1 <= t.year <= 9999
    && 1 <= t.month <= 12
    && 1 <= t.day <= DaysInMonth(t.year, t.month)
    && 0 <= t.hour < 24
    && 0 <= t.minute < 60
  }

  /** Chronological order. */
  predicate LessEq(a: Timestamp, b: Timestamp)
  {
    || a.year < b.year
    || (a.year == b.year && a.month < b.month)
    || (a.year == b.year && a.month == b.month && a.day < b.day)
    || (a.year == b.year && a.month == b.month && a.day == b.day && a.hour < b.hour)
    || (a.year == b.year && a.month == b.month && a.day == b.day && a.hour == b.hour && a.minute <= b.minute)
  }

  predicate Less(a: Timestamp, b: Timestamp)
  {
    LessEq(a, b) && a != b
  }

  /** Truncating to the hour preserves chronological order. */
  lemma HourOfMonotone(a: Timestamp, b: Timestamp)
    requires LessEq(a, b)
    ensures LessEq(HourOf(a), HourOf(b))
  {
  }

  /** Two zero-padded digits, as `%m`, `%d`, `%H` and `%M` print a value below 100. */
  function Pad2(n: int): string
  {
    [Digit((n / 10) % 10), Digit(n % 10)]
  }

  /** Four zero-padded digits, as `%Y` prints a year from 1000 to 9999. */
  function Pad4(n: int): string
  {
    [Digit((n / 1000) % 10), Digit((n / 100) % 10), Digit((n / 10) % 10), Digit(n % 10)]
  }

  /** `t.strftime("%Y-%m-%d-%H-%M")`. */
  function Format(t: Timestamp): string
  {
    Join([Pad4(t.year), Pad2(t.month), Pad2(t.day), Pad2(t.hour), Pad2(t.minute)], '-')
  }

  /** A `%m`, `%H` or `%M` field: one or two digits whose value lies in `lo..hi`. */
  function NumField(p: string, lo: int, hi: int): (r: Option<int>)
    ensures r.Some? ==> lo <= r.value <= hi
  {
    if 1 <= |p| <= 2 && AllDigits(p) && lo <= DigitsValue(p) <= hi then Some(DigitsValue(p)) else None
  }

  /** A `%d` field: like `NumField(p, 1, 31)`, and also a space followed by a digit 1 to 9. */
  function DayField(p: string): (r: Option<int>)
    ensures r.Some? ==> 1 <= r.value <= 31
  {
    if |p| == 2 && p[0] == ' ' && '1' <= p[1] <= '9' then Some(DigitValue(p[1])) else NumField(p, 1, 31)
  }

  /**
   * `datetime.strptime(s, "%Y-%m-%d-%H-%M")`: exactly five `-`-separated
   * fields, a four-digit year from 1, each other field within its range, the
   * day within its month; `None` where Python raises `ValueError`.
   */
  function Parse(s: string): (r: Option<Timestamp>)
    ensures r.Some? ==> Valid(r.value)
  {
    var parts := SplitOn(s, '-');
    if |parts| != 5 || |parts[0]| != 4 || !AllDigits(parts[0]) then None
    else
      var y := DigitsValue(parts[0]);
      DigitsValueBelow(parts[0]);
      match (NumField(parts[1], 1, 12), DayField(parts[2]), NumField(parts[3], 0, 23), NumField(parts[4], 0, 59))
      case (Some(m), Some(d), Some(h), Some(mi)) =>
        if 1 <= y && d <= DaysInMonth(y, m) then Some(Timestamp(y, m, d, h, mi)) else None
      case _ => None
  }

  /** One more digit on the right multiplies the value by ten and adds the digit. */
  lemma DigitsSnoc(s: string, d: nat)
    requires AllDigits(s) && d < 10
    ensures AllDigits(s + [Digit(d)]) && DigitsValue(s + [Digit(d)]) == DigitsValue(s) * 10 + d
  {
    assert (s + [Digit(d)])[..|s|] == s;
  }

  lemma Pad2Value(n: int)
    requires 0 <= n < 100
    ensures AllDigits(Pad2(n)) && DigitsValue(Pad2(n)) == n
  {
    var p := Pad2(n);
    assert p[..1][..0] == [];
    assert DigitsValue(p[..1]) == n / 10;
    assert DigitsValue(p) == DigitsValue(p[..1]) * 10 + n % 10;
  }

  lemma Pad4Value(n: int)
    requires 0 <= n < 10000
    ensures AllDigits(Pad4(n)) && DigitsValue(Pad4(n)) == n
  {
    var q3 := n / 10;
    var q2 := q3 / 10;
    var q1 := q2 / 10;
    assert n / 100 == q2 && n / 1000 == q1 && q1 % 10 == q1;
    var s1 := [Digit(q1)];
    var s2 := s1 + [Digit(q2 % 10)];
    var s3 := s2 + [Digit(q3 % 10)];
    var s4 := s3 + [Digit(n % 10)];
    DigitsSnoc([], q1);
    assert [] + [Digit(q1)] == s1;
    DigitsSnoc(s1, q2 % 10);
    DigitsSnoc(s2, q3 % 10);
    DigitsSnoc(s3, n % 10);
    assert DigitsValue(s2) == q2;
    assert DigitsValue(s3) == q3;
    assert Pad4(n) == s4;
  }

  /** Reading back what was written: `strptime(strftime(t)) == t` for every valid time. */
  lemma ParseFormat(t: Timestamp)
    requires Valid(t)
    ensures Parse(Format(t)) == Some(t)
  {
    var parts := [Pad4(t.year), Pad2(t.month), Pad2(t.day), Pad2(t.hour), Pad2(t.minute)];
    SplitJoin(parts, '-');
    Pad4Value(t.year);
    Pad2Value(t.month);
    Pad2Value(t.day);
    Pad2Value(t.hour);
    Pad2Value(t.minute);
  }

  /** The formatted time holds only digits and `-`. */
  lemma FormatChars(t: Timestamp, c: char)
    requires c in Format(t)
    ensures IsDigit(c) || c == '-'
  {
    var parts := [Pad4(t.year), Pad2(t.month), Pad2(t.day), Pad2(t.hour), Pad2(t.minute)];
    JoinMembers(parts, '-', c);
  }
}
