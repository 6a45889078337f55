/**
 * The proleptic Gregorian calendar and UTC instants, as the date library
 * underneath the bot uses them: an instant is a count of milliseconds since
 * 1970-01-01T00:00:00Z, and a civil date maps to a day number and back.
 */
module Calendar {

  datatype Date = Date(year: int, month: int, day: int)

  predicate IsLeapYear(y: int) {
    y % 4 == 0 && (y % 100 != 0 || y % 400 == 0)
  }

  function DaysInMonth(y: int, m: int): int
    requires 1 <= m <= 12
  {
    if m == 2 then (if IsLeapYear(y) then 29 else 28)
    else if m == 4 || m == 6 || m == 9 || m == 11 then 30
    else 31
  }

  /** A date that exists: month 1-12 and a day within that month. */
  predicate ValidDate(d: Date) {
    1 <= d.month <= 12 && 1 <= d.day <= DaysInMonth(d.year, d.month)
  }

  function YearLength(y: int): int {
    if IsLeapYear(y) then 366 else 365
  }

  /** Days from 1970-01-01 to January 1 of year `y` (negative before 1970). */
  function DaysBeforeYear(y: int): int {
    var p := y - 1;
    365 * p + p / 4 - p / 100 + p / 400 - 719162
  }

  /** Days from January 1 to the first of month `m` of year `y`; month 13 stands for the next January. */
  function DaysBeforeMonth(y: int, m: int): int
    requires 1 <= m <= 13
  {
    var cumulative := [0, 31, 59, 90, 120, 151, 181, 212, 243, 273, 304, 334, 365];
    cumulative[m - 1] + (if m > 2 && IsLeapYear(y) then 1 else 0)
  }

  lemma DaysBeforeMonthStep(y: int, m: int)
    requires 1 <= m <= 12
    ensures DaysBeforeMonth(y, m + 1) == DaysBeforeMonth(y, m) + DaysInMonth(y, m)
    ensures DaysBeforeMonth(y, 13) == YearLength(y)
  {
  }

  lemma DaysBeforeMonthMonotone(y: int, m: int, n: int)
    requires 1 <= m < n <= 12
    ensures DaysBeforeMonth(y, m + 1) <= DaysBeforeMonth(y, n)
  {
  }

  /** Consecutive New Years are a year length apart. */
  lemma YearStep(y: int)
    ensures DaysBeforeYear(y + 1) == DaysBeforeYear(y) + YearLength(y)
  {
    DivStep(y, 4);
    DivStep(y, 100);
    DivStep(y, 400);
  }

  /** Stepping from `y - 1` to `y` raises `y / n` exactly when `n` divides `y`. */
  lemma DivStep(y: int, n: int)
    requires 0 < n
    ensures y / n - (y - 1) / n == (if y % n == 0 then 1 else 0)
  {
    var q, r := y / n, y % n;
    if r == 0 {
      DivModOf(y - 1, q - 1, n - 1, n);
    } else {
      DivModOf(y - 1, q, r - 1, n);
    }
  }

  /** Every 400 years the calendar repeats after exactly 146097 days. */
  lemma EraStart(k: int)
    ensures DaysBeforeYear(400 * k) == DaysBeforeYear(0) + 146097 * k
  {
    var p := 400 * k - 1;
    assert p / 4 == 100 * k - 1;
    assert p / 100 == 4 * k - 1;
    assert p / 400 == k - 1;
  }

  lemma {:induction false} DaysBeforeYearMonotone(a: int, b: int)
    requires a < b
    ensures DaysBeforeYear(a + 1) <= DaysBeforeYear(b)
    decreases b - a
  {
    if a + 1 < b {
      DaysBeforeYearMonotone(a + 1, b);
      YearStep(a + 1);
    }
  }

  /** Day number of a date: 0 is 1970-01-01. */
  function DaysFromCivil(d: Date): (z: int)
    requires ValidDate(d)
    ensures DaysBeforeYear(d.year) <= z < DaysBeforeYear(d.year + 1)
  {
    YearStep(d.year);
    DaysBeforeMonthStep(d.year, d.month);
    DaysBeforeYear(d.year) + DaysBeforeMonth(d.year, d.month) + d.day - 1
  }

  /** The year, at or after `y`, whose days include day number `z`. */
  function YearContaining(z: int, y: int): (r: int)
    requires DaysBeforeYear(y) <= z
    ensures DaysBeforeYear(r) <= z < DaysBeforeYear(r + 1)
    decreases z - DaysBeforeYear(y)
  {
    YearStep(y);
    if z < DaysBeforeYear(y + 1) then y else YearContaining(z, y + 1)
  }

  /** The month, at or after `m`, whose days include day `doy` of year `y`. */
  function MonthContaining(y: int, doy: int, m: int): (r: int)
    requires 1 <= m <= 12 && DaysBeforeMonth(y, m) <= doy < DaysBeforeMonth(y, 13)
    ensures 1 <= r <= 12 && DaysBeforeMonth(y, r) <= doy < DaysBeforeMonth(y, r + 1)
    decreases 12 - m
  {
    if doy < DaysBeforeMonth(y, m + 1) then m else MonthContaining(y, doy, m + 1)
  }

  /** The date with day number `z`: a valid date that `DaysFromCivil` maps back to `z`. */
  function CivilFromDays(z: int): (d: Date)
    ensures ValidDate(d) && DaysFromCivil(d) == z
  {
    var k := (z - DaysBeforeYear(0)) / 146097;
    EraStart(k);
    var y := YearContaining(z, 400 * k);
    YearStep(y);
    var doy := z - DaysBeforeYear(y);
    DaysBeforeMonthStep(y, 12);
    var m := MonthContaining(y, doy, 1);
    DaysBeforeMonthStep(y, m);
    Date(y, m, doy - DaysBeforeMonth(y, m) + 1)
  }

  /** No two valid dates share a day number. */
  lemma DaysFromCivilInjective(a: Date, b: Date)
    requires ValidDate(a) && ValidDate(b)
    requires DaysFromCivil(a) == DaysFromCivil(b)
    ensures a == b
  {
    if a.year < b.year {
      DaysBeforeYearMonotone(a.year, b.year);
    } else if b.year < a.year {
      DaysBeforeYearMonotone(b.year, a.year);
    } else {
      var y := a.year;
      DaysBeforeMonthStep(y, a.month);
      DaysBeforeMonthStep(y, b.month);
      if a.month < b.month {
        DaysBeforeMonthMonotone(y, a.month, b.month);
      } else if b.month < a.month {
        DaysBeforeMonthMonotone(y, b.month, a.month);
      }
    }
  }

  /** Turning a valid date into a day number and back gives the same date. */
  lemma CivilRoundTrip(d: Date)
    requires ValidDate(d)
    ensures CivilFromDays(DaysFromCivil(d)) == d
  {
    DaysFromCivilInjective(CivilFromDays(DaysFromCivil(d)), d);
  }

  // ---------------------------------------------------------------------
  // Instants
  // ---------------------------------------------------------------------

  const MsPerSecond: int := 1000
  const MsPerMinute: int := 60_000
  const MsPerHour: int := 3_600_000
  const MsPerDay: int := 86_400_000

  /** The largest distance from the epoch an ECMAScript time value may have (10^8 days). */
  const MaxTimeMs: int := 8_640_000_000_000_000

  /** A point in time: milliseconds since 1970-01-01T00:00:00Z. */
  datatype Instant = Instant(ms: int)

  predicate InTimeRange(ms: int) {
    -MaxTimeMs <= ms <= MaxTimeMs
  }

  /** Day number of the UTC day containing `t` (days start at midnight, so this rounds down). */
  function DayNumber(t: Instant): (z: int)
    ensures z * MsPerDay <= t.ms < z * MsPerDay + MsPerDay
  {
    t.ms / MsPerDay
  }

  /** The UTC calendar date of `t`. */
  function UtcDate(t: Instant): (d: Date)
    ensures ValidDate(d)
    ensures DaysFromCivil(d) * MsPerDay <= t.ms < DaysFromCivil(d) * MsPerDay + MsPerDay
  {
    CivilFromDays(DayNumber(t))
  }

  /** Milliseconds of `t` since the start of its UTC day. */
  function MsOfDay(t: Instant): (r: int)
    ensures 0 <= r < MsPerDay
    ensures t.ms == DayNumber(t) * MsPerDay + r
  {
    t.ms % MsPerDay
  }

  /** UTC hour (0-23) and minute (0-59) of `t`. */
  function UtcHour(t: Instant): (h: int)
    ensures 0 <= h < 24
  {
    MsOfDay(t) / MsPerHour
  }

  function UtcMinute(t: Instant): (m: int)
    ensures 0 <= m < 60
  {
    (MsOfDay(t) % MsPerHour) / MsPerMinute
  }

  /** The instant at `hour`:`minute` UTC on date `d`. */
  function UtcMs(d: Date, hour: int, minute: int): int
    requires ValidDate(d)
  {
    DaysFromCivil(d) * MsPerDay + hour * MsPerHour + minute * MsPerMinute
  }

  lemma MulAtLeast(e: int, n: int)
    requires 0 < e && 0 < n
    ensures e * n >= n
  {
    assert e * n == (e - 1) * n + n;
  }

  /** Quotient and remainder are determined by any decomposition with a remainder in range. */
  lemma DivModOf(x: int, q: int, r: int, n: int)
    requires 0 < n && 0 <= r < n && x == q * n + r
    ensures x / n == q && x % n == r
  {
    var q', r' := x / n, x % n;
    assert q' * n + r' == x;
    assert (q' - q) * n == r - r';
    assert (q - q') * n == r' - r;
    if q' > q {
      MulAtLeast(q' - q, n);
    } else if q' < q {
      MulAtLeast(q - q', n);
    }
  }

  /** Reading the date, hour and minute back out of a UTC instant gives what built it. */
  lemma UtcFieldsRoundTrip(d: Date, hour: int, minute: int)
    requires ValidDate(d) && 0 <= hour < 24 && 0 <= minute < 60
    ensures var t := Instant(UtcMs(d, hour, minute));
      && UtcDate(t) == d
      && UtcHour(t) == hour
      && UtcMinute(t) == minute
      && t.ms % MsPerMinute == 0
  {
    var z := DaysFromCivil(d);
    var t := Instant(UtcMs(d, hour, minute));
    var within := hour * MsPerHour + minute * MsPerMinute;
    DivModOf(t.ms, z, within, MsPerDay);
    CivilRoundTrip(d);
    DivModOf(within, hour, minute * MsPerMinute, MsPerHour);
    DivModOf(minute * MsPerMinute, minute, 0, MsPerMinute);
    DivModOf(t.ms, z * 1440 + hour * 60 + minute, 0, MsPerMinute);
  }

  /** An instant at a whole minute is the one its UTC date, hour and minute build. */
  lemma InstantFromFields(t: Instant)
    requires t.ms % MsPerMinute == 0
    ensures UtcMs(UtcDate(t), UtcHour(t), UtcMinute(t)) == t.ms
  {
    var z := DaysFromCivil(UtcDate(t));
    DivModOf(t.ms, z, t.ms - z * MsPerDay, MsPerDay);
    var r := MsOfDay(t);
    var h, m := UtcHour(t), UtcMinute(t);
    var e := (r % MsPerHour) % MsPerMinute;
    assert r == h * MsPerHour + m * MsPerMinute + e;
    assert t.ms == (z * 1440 + h * 60 + m) * MsPerMinute + e;
    DivModOf(t.ms, z * 1440 + h * 60 + m, e, MsPerMinute);
  }

  /** The calendar date after `d`: the next day of its month, else the first of the next month, else New Year's Day. */
  function NextDate(d: Date): (r: Date)
    requires ValidDate(d)
    ensures ValidDate(r)
  {
    if d.day < DaysInMonth(d.year, d.month) then Date(d.year, d.month, d.day + 1)
    else if d.month < 12 then Date(d.year, d.month + 1, 1)
    else Date(d.year + 1, 1, 1)
  }

  /** The next date is the next day number: month ends and year ends included. */
  lemma NextDateDays(d: Date)
    requires ValidDate(d)
    ensures DaysFromCivil(NextDate(d)) == DaysFromCivil(d) + 1
  {
    if d.day == DaysInMonth(d.year, d.month) {
      DaysBeforeMonthStep(d.year, d.month);
      if d.month == 12 {
        YearStep(d.year);
      }
    }
  }

  /** The UTC date of `t` carries the day number of `t`. */
  lemma UtcDateDays(t: Instant)
    ensures DaysFromCivil(UtcDate(t)) == DayNumber(t)
  {
  }

  /**
   * Adding 86 400 000 ms moves a UTC instant to the same time of day on the
   * next calendar date.
   */
  lemma NextDay(t: Instant)
    ensures UtcDate(Instant(t.ms + MsPerDay)) == NextDate(UtcDate(t))
    ensures DaysFromCivil(UtcDate(Instant(t.ms + MsPerDay))) == DaysFromCivil(UtcDate(t)) + 1
    ensures UtcHour(Instant(t.ms + MsPerDay)) == UtcHour(t)
    ensures UtcMinute(Instant(t.ms + MsPerDay)) == UtcMinute(t)
    ensures MsOfDay(Instant(t.ms + MsPerDay)) == MsOfDay(t)
  {
    var u := Instant(t.ms + MsPerDay);
    NextDayNumber(t);
    UtcDateDays(t);
    UtcDateDays(u);
    NextDateDays(UtcDate(t));
    DaysFromCivilInjective(UtcDate(u), NextDate(UtcDate(t)));
  }

  /** One day on, the day number goes up by one and the time of day stays. */
  lemma NextDayNumber(t: Instant)
    ensures DayNumber(Instant(t.ms + MsPerDay)) == DayNumber(t) + 1
    ensures MsOfDay(Instant(t.ms + MsPerDay)) == MsOfDay(t)
  {
    var z, r := t.ms / MsPerDay, t.ms % MsPerDay;
    DivModOf(t.ms + MsPerDay, z + 1, r, MsPerDay);
  }

  /** 2024 is a leap year, so 2024-02-29 exists; it is day 19782 after the epoch. */
  lemma LeapDay2024()
    ensures ValidDate(Date(2024, 2, 29))
    ensures DaysFromCivil(Date(2024, 2, 29)) == 19782
  {
    assert IsLeapYear(2024);
    assert DaysBeforeYear(2024) == 19723;
  }

  /** 2023 is not a leap year, so 2023-02-29 does not exist. */
  lemma NoLeapDay2023()
    ensures !ValidDate(Date(2023, 2, 29))
  {
    assert !IsLeapYear(2023);
  }
}
