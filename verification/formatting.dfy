/** Text renderings of dates and instants: `strftime('%Y-%m-%d')` for the
    resolved relative days and `datetime.isoformat()` for the suggested slots,
    with a date reader that undoes the former. */
module Formatting {
  import opened Calendar
  import opened Optional

  predicate IsDigit(c: char) {
    '0' <= c <= '9'
  }

  predicate AllDigits(s: string) {
    forall i :: 0 <= i < |s| ==> IsDigit(s[i])
  }

  function DigitChar(d: int): char
    requires 0 <= d < 10
  {
    ('0' as int + d) as char
  }

  function DigitValue(c: char): int {
    if IsDigit(c) then c as int - '0' as int else 0
  }

  /** Value of a string of decimal digits, most significant digit first. */
  function DecimalValue(s: string): nat {
    if s == [] then 0 else DecimalValue(s[..|s| - 1]) * 10 + DigitValue(s[|s| - 1])
  }

  /** `str(n)` for a natural number. */
  function Decimal(n: nat): (s: string)
    ensures 1 <= |s| && AllDigits(s)
    ensures DecimalValue(s) == n
    ensures n < 10 ==> |s| == 1
    ensures n < 100 ==> |s| <= 2
  {
    if n < 10 then [DigitChar(n)]
    else
      var s := Decimal(n / 10) + [DigitChar(n % 10)];
      assert s[..|s| - 1] == Decimal(n / 10);
      s
  }

  /** A number of two or more digits is the number without its last digit,
      followed by that digit. */
  lemma DecimalStep(n: nat)
    requires n >= 10
    ensures Decimal(n) == Decimal(n / 10) + [DigitChar(n % 10)]
  {
  }

  /** `k` zero digits. */
  function Zeros(k: nat): (s: string)
    ensures |s| == k && AllDigits(s)
    ensures DecimalValue(s) == 0
  {
    if k == 0 then []
    else
      var s := Zeros(k - 1) + ['0'];
      assert s[..|s| - 1] == Zeros(k - 1);
      s
  }

  /** Leading zeros do not change the value of a digit string. */
  lemma {:induction false} LeadingZeros(k: nat, s: string)
    ensures DecimalValue(Zeros(k) + s) == DecimalValue(s)
    decreases |s|
  {
    if s == [] {
      assert Zeros(k) + s == Zeros(k);
    } else {
      var t := Zeros(k) + s;
      assert t[..|t| - 1] == Zeros(k) + s[..|s| - 1];
      LeadingZeros(k, s[..|s| - 1]);
    }
  }

  /** `'%0*d' % (w, n)`: `n` in decimal, left-padded with zeros to at least
      `w` digits. */
  function ZeroPad(n: nat, w: nat): (s: string)
    ensures AllDigits(s) && DecimalValue(s) == n
    ensures |s| == if |Decimal(n)| >= w then |Decimal(n)| else w
    ensures n < 100 && w == 2 ==> |s| == 2
  {
    var d := Decimal(n);
    if |d| >= w then d
    else
      LeadingZeros(w - |d|, d);
      Zeros(w - |d|) + d
  }

  /** `date.strftime('%Y-%m-%d')`: four-digit year, two-digit month and day. */
  function FormatDate(d: Date): (s: string)
    requires ValidDate(d)
    ensures |s| >= 10
  {
    ZeroPad(d.year, 4) + "-" + ZeroPad(d.month, 2) + "-" + ZeroPad(d.day, 2)
  }

  /** `s` is a run of digits, a dash, two digits, a dash and two digits. */
  predicate Dashed(s: string) {
    && |s| >= 10
    && AllDigits(s[..|s| - 6]) && s[|s| - 6] == '-'
    && AllDigits(s[|s| - 5..|s| - 3]) && s[|s| - 3] == '-'
    && AllDigits(s[|s| - 2..])
  }

  /** Reads back a `YYYY-MM-DD` string. */
  function ParseDate(s: string): Option<Date> {
    if Dashed(s)
    then Some(Date(DecimalValue(s[..|s| - 6]), DecimalValue(s[|s| - 5..|s| - 3]), DecimalValue(s[|s| - 2..])))
    else None
  }

  /** Reading back digits joined by dashes recovers their values. */
  lemma ParseDashed(y: string, m: string, dd: string)
    requires AllDigits(y) && AllDigits(m) && AllDigits(dd)
    requires |y| >= 4 && |m| == 2 && |dd| == 2
    ensures ParseDate(y + "-" + m + "-" + dd) == Some(Date(DecimalValue(y), DecimalValue(m), DecimalValue(dd)))
  {
    var a := y + "-";
    var b := a + m;
    var c := b + "-";
    var s := c + dd;
    assert s[..|c|] == c && s[|c|..] == dd;
    assert c[..|b|] == b && b[..|a|] == a && b[|a|..] == m && a[..|y|] == y;
    assert s[..|s| - 6] == y by {
      assert s[..|y|] == c[..|y|] == b[..|y|] == a[..|y|];
    }
    assert s[|s| - 5..|s| - 3] == m by {
      assert s[|a|..|b|] == c[|a|..|b|] == b[|a|..];
    }
    assert Dashed(s) by {
      assert s[|s| - 6] == a[|y|] == '-';
      assert s[|s| - 3] == c[|b|] == '-';
    }
  }

  /** Round trip: reading back a formatted date gives the date. */
  lemma ParseFormatDate(d: Date)
    requires ValidDate(d)
    ensures ParseDate(FormatDate(d)) == Some(d)
  {
    ParseDashed(ZeroPad(d.year, 4), ZeroPad(d.month, 2), ZeroPad(d.day, 2));
  }

  /** The `HH:MM:SS` part of `datetime.isoformat()` for a time of day given
      in microseconds, followed by a six-digit fraction only when the
      microseconds are not zero. */
  function ClockTime(tod: nat): string {
    var micros := tod % 1_000_000;
    var secs := tod / 1_000_000;
    ZeroPad(secs / 3600, 2) + ":" + ZeroPad(secs / 60 % 60, 2) + ":" + ZeroPad(secs % 60, 2)
    + (if micros == 0 then "" else "." + ZeroPad(micros, 6))
  }

  /** Different dates are written differently. */
  lemma FormatDateInjective(d1: Date, d2: Date)
    requires ValidDate(d1) && ValidDate(d2)
    requires FormatDate(d1) == FormatDate(d2)
    ensures d1 == d2
  {
    ParseFormatDate(d1);
    ParseFormatDate(d2);
  }

  /** `strftime('%Y-%m-%d')` of the date with ordinal `n`. */
  function DateText(n: int): string
    requires n >= 1
  {
    FormatDate(FromOrdinal(n))
  }

  /** Different days are written differently. */
  lemma DateTextInjective(a: int, b: int)
    requires a >= 1 && b >= 1
    requires DateText(a) == DateText(b)
    ensures a == b
  {
    FormatDateInjective(FromOrdinal(a), FromOrdinal(b));
  }

  /** `datetime.isoformat()` of an aware UTC datetime: the date, `T`, the
      clock time and the offset `+00:00`. */
  function IsoFormat(t: Instant): string {
    FormatDate(FromOrdinal(DayOf(t))) + "T" + ClockTime(t % MicrosPerDay) + "+00:00"
  }

  /** The clock time of a whole hour `h` is `HH:00:00`, without a fraction. */
  lemma ClockTimeOnTheHour(h: int)
    requires 0 <= h < 24
    ensures ClockTime(h * MicrosPerHour) == ZeroPad(h, 2) + ":00:00"
  {
    HourSplits(h);
    assert ZeroPad(0, 2) == "00" by {
      assert Decimal(0) == "0" && Zeros(1) == "0";
    }
    ZeroMinutesSeconds(ZeroPad(h, 2));
  }

  /** `h` whole hours are `h * 3600` seconds and no microseconds, with zero
      minutes and seconds. */
  lemma HourSplits(h: int)
    requires 0 <= h < 24
    ensures (h * MicrosPerHour) % 1_000_000 == 0
    ensures (h * MicrosPerHour) / 1_000_000 == h * 3600
    ensures (h * 3600) / 3600 == h && (h * 3600) / 60 % 60 == 0 && (h * 3600) % 60 == 0
  {
  }

  lemma ZeroMinutesSeconds(hh: string)
    ensures hh + ":" + "00" + ":" + "00" + "" == hh + ":00:00"
  {
  }

  /** The instant `h` whole hours after the midnight starting day `n` is
      written with day `n`'s date, hour `h`, zero minutes and seconds, no
      fraction and the UTC offset. */
  lemma IsoFormatOnTheHour(n: int, h: int)
    requires n >= 1 && 0 <= h < 24
    ensures IsoFormat(Midnight(n) + h * MicrosPerHour)
         == FormatDate(FromOrdinal(n)) + "T" + ClockTime(h * MicrosPerHour) + "+00:00"
    ensures ClockTime(h * MicrosPerHour) == ZeroPad(h, 2) + ":00:00"
  {
    MidnightPlusHours(n, h);
    ClockTimeOnTheHour(h);
  }
}
