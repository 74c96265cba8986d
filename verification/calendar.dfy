/** Proleptic Gregorian calendar arithmetic in the terms Python's `datetime`
    uses: dates are numbered by ordinal (0001-01-01 is day 1), the weekday of
    an ordinal is Monday = 0 .. Sunday = 6, and an instant is a count of
    microseconds since 0001-01-01T00:00:00 UTC. */
module Calendar {

  const MicrosPerHour: nat := 3_600_000_000
  const MicrosPerDay: nat := 86_400_000_000

  /** An aware UTC datetime: microseconds since 0001-01-01T00:00:00 UTC. */
  type Instant = nat

  datatype Date = Date(year: int, month: int, day: int)

  predicate IsLeap(y: int) {
    y % 4 == 0 && (y % 100 != 0 || y % 400 == 0)
  }

  function DaysInYear(y: int): int {
    if IsLeap(y) then 366 else 365
  }

  function DaysInMonth(y: int, m: int): int
    requires 1 <= m <= 12
  {
    if m == 2 then (if IsLeap(y) then 29 else 28)
    else if m == 4 || m == 6 || m == 9 || m == 11 then 30
    else 31
  }

  /** Days in the years before year `y`. */
  function DaysBeforeYear(y: int): int
    requires y >= 1
  {
    var p := y - 1;
    p * 365 + p / 4 - p / 100 + p / 400
  }

  /** Days in the months of year `y` before month `m`. */
  function DaysBeforeMonth(y: int, m: int): int
    requires 1 <= m <= 12
  {
    [0, 31, 59, 90, 120, 151, 181, 212, 243, 273, 304, 334][m - 1]
    + (if m > 2 && IsLeap(y) then 1 else 0)
  }

  predicate ValidDate(d: Date) {
    d.year >= 1 && 1 <= d.month <= 12 && 1 <= d.day <= DaysInMonth(d.year, d.month)
  }

  /** `date.toordinal()`. */
  function ToOrdinal(d: Date): int
    requires ValidDate(d)
  {
    DaysBeforeYear(d.year) + DaysBeforeMonth(d.year, d.month) + d.day
  }

  /** `date.weekday()`: Monday is 0 and Sunday is 6. */
  function Weekday(n: int): int {
    (n + 6) % 7
  }

  /** Weekdays cycle: the day after a Sunday is a Monday, and otherwise the
      weekday goes up by one. */
  lemma WeekdayStep(n: int)
    ensures Weekday(n + 1) == if Weekday(n) == 6 then 0 else Weekday(n) + 1
  {
  }

  /** The date of an instant, as an ordinal. */
  function DayOf(t: Instant): (n: int)
    ensures n >= 1
  {
    t / MicrosPerDay + 1
  }

  /** An instant lies within the day `DayOf` gives it. */
  lemma DayOfBounds(t: Instant)
    ensures (DayOf(t) - 1) * MicrosPerDay <= t < DayOf(t) * MicrosPerDay
  {
  }

  /** The instant at midnight starting day `n`. */
  function Midnight(n: int): Instant
    requires n >= 1
  {
    (n - 1) * MicrosPerDay
  }

  /** `t + timedelta(days=k)`. */
  function AddDays(t: Instant, k: nat): Instant {
    t + k * MicrosPerDay
  }

  /** Adding `k` whole days moves the date `k` days on. */
  lemma AddDaysMeaning(t: Instant, k: nat)
    ensures DayOf(AddDays(t, k)) == DayOf(t) + k
  {
    DayOfBounds(t);
    var d := DayOf(t);
    assert (d - 1 + k) * MicrosPerDay <= t + k * MicrosPerDay < (d + k) * MicrosPerDay;
  }

  /** An instant `h` whole hours after midnight of day `n` still falls on
      day `n`, and its time of day is exactly `h` hours. */
  lemma MidnightPlusHours(n: int, h: int)
    requires n >= 1 && 0 <= h < 24
    ensures DayOf(Midnight(n) + h * MicrosPerHour) == n
    ensures (Midnight(n) + h * MicrosPerHour) % MicrosPerDay == h * MicrosPerHour
  {
    assert Midnight(n) + h * MicrosPerHour == (n - 1) * MicrosPerDay + h * MicrosPerHour;
  }

  // ---------------------------------------------------------------------
  // Ordinal to date (the conversion behind `strftime('%Y-%m-%d')`)
  // ---------------------------------------------------------------------

  /** Counting one more year adds a multiple of 4, 100 or 400 exactly
      when the new count is one. */
  lemma NextQuarter(p: int)
    requires p >= 0
    ensures (p + 1) / 4 - p / 4 == if (p + 1) % 4 == 0 then 1 else 0
  {
    var q, r := p / 4, p % 4;
    assert p == 4 * q + r && 0 <= r < 4;
    if r == 3 { assert p + 1 == 4 * (q + 1); } else { assert p + 1 == 4 * q + (r + 1); }
  }

  lemma NextCentury(p: int)
    requires p >= 0
    ensures (p + 1) / 100 - p / 100 == if (p + 1) % 100 == 0 then 1 else 0
  {
    var q, r := p / 100, p % 100;
    assert p == 100 * q + r && 0 <= r < 100;
    if r == 99 { assert p + 1 == 100 * (q + 1); } else { assert p + 1 == 100 * q + (r + 1); }
  }

  lemma NextQuadricentury(p: int)
    requires p >= 0
    ensures (p + 1) / 400 - p / 400 == if (p + 1) % 400 == 0 then 1 else 0
  {
    var q, r := p / 400, p % 400;
    assert p == 400 * q + r && 0 <= r < 400;
    if r == 399 { assert p + 1 == 400 * (q + 1); } else { assert p + 1 == 400 * q + (r + 1); }
  }

  /** Moving from year `y` to year `y + 1` adds the length of year `y`. */
  lemma DaysBeforeNextYear(y: int)
    requires y >= 1
    ensures DaysBeforeYear(y + 1) == DaysBeforeYear(y) + DaysInYear(y)
  {
    NextQuarter(y - 1);
    NextCentury(y - 1);
    NextQuadricentury(y - 1);
    DivisorChain(y);
    var p := y - 1;
    assert DaysBeforeYear(y + 1) - DaysBeforeYear(y)
        == 365 + ((p + 1) / 4 - p / 4) - ((p + 1) / 100 - p / 100) + ((p + 1) / 400 - p / 400);
  }

  /** A multiple of 400 is a multiple of 100, and a multiple of 100 is a
      multiple of 4. */
  lemma DivisorChain(y: int)
    ensures y % 400 == 0 ==> y % 100 == 0
    ensures y % 100 == 0 ==> y % 4 == 0
  {
    if y % 400 == 0 {
      var q := y / 400;
      assert y == 100 * (4 * q);
      assert y / 100 == 4 * q;
    }
    if y % 100 == 0 {
      var q := y / 100;
      assert y == 4 * (25 * q);
      assert y / 4 == 25 * q;
    }
  }

  /** Years are laid out one after the other: later years start later. */
  lemma {:induction false} DaysBeforeYearGrows(y1: int, y2: int)
    requires 1 <= y1 < y2
    ensures DaysBeforeYear(y1) + DaysInYear(y1) <= DaysBeforeYear(y2)
    decreases y2 - y1
  {
    DaysBeforeNextYear(y1);
    if y1 + 1 < y2 {
      DaysBeforeYearGrows(y1 + 1, y2);
    }
  }

  /** Finds the year holding zero-based day `r` counted from the start of
      year `y`, and the zero-based day within that year, by walking forward
      one year at a time. */
  function YearAndRest(y: int, r: nat): (yr: (int, int))
    requires y >= 1
    ensures yr.0 >= y
    ensures 0 <= yr.1 < DaysInYear(yr.0)
    ensures DaysBeforeYear(yr.0) + yr.1 == DaysBeforeYear(y) + r
    decreases r
  {
    if r < DaysInYear(y) then (y, r)
    else
      DaysBeforeNextYear(y);
      YearAndRest(y + 1, r - DaysInYear(y))
  }

  /** Finds the month holding zero-based day `r` of year `y`, searching from
      month `m`. */
  function MonthAndDay(y: int, m: int, r: int): (d: Date)
    requires y >= 1 && 1 <= m <= 12
    requires 0 <= r < DaysInYear(y) - DaysBeforeMonth(y, m)
    ensures ValidDate(d) && d.year == y && d.month >= m
    ensures DaysBeforeMonth(y, d.month) + d.day - 1 == DaysBeforeMonth(y, m) + r
    decreases 12 - m
  {
    if r < DaysInMonth(y, m) then Date(y, m, r + 1)
    else MonthAndDay(y, m + 1, r - DaysInMonth(y, m))
  }

  /** `date.fromordinal(n)`: the date whose ordinal is `n`. */
  function FromOrdinal(n: int): (d: Date)
    requires n >= 1
    ensures ValidDate(d)
    ensures ToOrdinal(d) == n
  {
    var yr := YearAndRest(1, n - 1);
    MonthAndDay(yr.0, 1, yr.1)
  }

  /** A valid date's ordinal lies within its year. */
  lemma OrdinalWithinYear(d: Date)
    requires ValidDate(d)
    ensures DaysBeforeYear(d.year) < ToOrdinal(d) <= DaysBeforeYear(d.year) + DaysInYear(d.year)
  {
  }

  /** Distinct valid dates have distinct ordinals. */
  lemma OrdinalInjective(d1: Date, d2: Date)
    requires ValidDate(d1) && ValidDate(d2)
    requires ToOrdinal(d1) == ToOrdinal(d2)
    ensures d1 == d2
  {
    OrdinalWithinYear(d1);
    OrdinalWithinYear(d2);
    if d1.year < d2.year {
      DaysBeforeYearGrows(d1.year, d2.year);
    } else if d2.year < d1.year {
      DaysBeforeYearGrows(d2.year, d1.year);
    }
    assert d1.year == d2.year;
  }

  /** Round trip: converting a valid date to its ordinal and back gives the
      same date. */
  lemma FromOrdinalToOrdinal(d: Date)
    requires ValidDate(d)
    ensures FromOrdinal(ToOrdinal(d)) == d
  {
    OrdinalInjective(FromOrdinal(ToOrdinal(d)), d);
  }
}
