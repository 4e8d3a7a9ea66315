/**
 * The proleptic Gregorian calendar and instants on the UTC time line, as Go's
 * `time` package uses them: a date is a (year, month, day) triple, an instant
 * is a count of nanoseconds since 1970-01-01T00:00:00Z.
 */
module Calendar {

  datatype Date = Date(year: int, month: int, day: int)

  /** An instant: nanoseconds since the Unix epoch. Every time in the model is in UTC. */
  type Instant = int

  const NANOS_PER_SECOND: int := 1_000_000_000
  const SECONDS_PER_DAY: int := 86_400
  const NANOS_PER_DAY: int := 86_400_000_000_000
  /** One Go `time.Hour`. */
  const NANOS_PER_HOUR: int := 3_600_000_000_000
  /** Day number of 1970-01-01, counting 0000-01-01 as day 0. */
  const UNIX_EPOCH_DAY: int := 719_528
  /** Days in a 400-year cycle of the Gregorian calendar. */
  const DAYS_PER_ERA: int := 146_097

  /** Go's `isLeap`; the tests are sign-independent, so negative years work too. */
  predicate IsLeap(y: int) {
    y % 4 == 0 && (y % 100 != 0 || y % 400 == 0)
  }

  function YearLength(y: int): int {
    if IsLeap(y) then 366 else 365
  }

  /** Go's `daysIn(month, year)`. */
  function DaysIn(m: int, y: int): int
    requires 1 <= m <= 12
  {
    if m == 2 then (if IsLeap(y) then 29 else 28)
    else if m == 4 || m == 6 || m == 9 || m == 11 then 30
    else 31
  }

  predicate ValidDate(d: Date) {
    1 <= d.month <= 12 && 1 <= d.day <= DaysIn(d.month, d.year)
  }

  /** Days from 0000-01-01 to January 1st of year `y` (negative before year 0). */
  function DaysBeforeYear(y: int): int {
    365 * y + (y + 3) / 4 - (y + 99) / 100 + (y + 399) / 400
  }

  const MONTH_STARTS: seq<int> := [0, 31, 59, 90, 120, 151, 181, 212, 243, 273, 304, 334, 365]

  /** Days from January 1st of year `y` to the first of month `m` (13 meaning the next January). */
  function DaysBeforeMonth(m: int, y: int): int
    requires 1 <= m <= 13
  {
    MONTH_STARTS[m - 1] + (if m > 2 && IsLeap(y) then 1 else 0)
  }

  /** Day number of a date: 0000-01-01 is day 0. */
  function DayNumber(d: Date): int
    requires ValidDate(d)
  {
    DaysBeforeYear(d.year) + DaysBeforeMonth(d.month, d.year) + d.day - 1
  }

  lemma YearStep(y: int)
    ensures DaysBeforeYear(y + 1) == DaysBeforeYear(y) + YearLength(y)
  {
    CeilingStep(y, 4);
    CeilingStep(y, 100);
    CeilingStep(y, 400);
    if y % 400 == 0 {
      DivUnique(y, 100, 4 * (y / 400), 0);
    }
    if y % 100 == 0 {
      DivUnique(y, 4, 25 * (y / 100), 0);
    }
  }

  /** Adding `c` to `y` moves the rounded-up quotient by one exactly when `c` divides `y`. */
  lemma CeilingStep(y: int, c: int)
    requires c > 0
    ensures (y + c) / c == (y + c - 1) / c + (if y % c == 0 then 1 else 0)
  {
    var q, r := y / c, y % c;
    DivUnique(y + c, c, q + 1, r);
    if r == 0 {
      DivUnique(y + c - 1, c, q, c - 1);
    } else {
      DivUnique(y + c - 1, c, q + 1, r - 1);
    }
  }

  /** Euclidean division has one quotient: any `q` with a remainder in [0, c) is it. */
  lemma DivUnique(x: int, c: int, q: int, r: int)
    requires c > 0 && 0 <= r < c && x == c * q + r
    ensures x / c == q
  {
    var q', r' := x / c, x % c;
    assert c * q' + r' == c * q + r;
    if q' < q {
      assert c * (q - q') == r' - r;
      MulAtLeast(c, q - q');
    } else if q' > q {
      assert c * (q' - q) == r - r';
      MulAtLeast(c, q' - q);
    }
  }

  lemma {:induction false} MulAtLeast(c: int, k: int)
    requires c > 0 && k >= 1
    ensures c * k >= c
    decreases k
  {
    if k > 1 {
      MulAtLeast(c, k - 1);
      assert c * k == c * (k - 1) + c;
    }
  }

  lemma MonthStep(m: int, y: int)
    requires 1 <= m <= 12
    ensures DaysBeforeMonth(m + 1, y) == DaysBeforeMonth(m, y) + DaysIn(m, y)
    ensures DaysBeforeMonth(13, y) == YearLength(y)
  {
  }

  lemma EraDiv4(e: int, j: int)
    ensures (400 * e + j) / 4 == 100 * e + j / 4 && (400 * e + j) % 4 == j % 4
  {
    assert 400 * e + j == 4 * (100 * e + j / 4) + j % 4;
  }

  lemma EraDiv100(e: int, j: int)
    ensures (400 * e + j) / 100 == 4 * e + j / 100 && (400 * e + j) % 100 == j % 100
  {
    assert 400 * e + j == 100 * (4 * e + j / 100) + j % 100;
  }

  lemma EraDiv400(e: int, j: int)
    ensures (400 * e + j) / 400 == e + j / 400 && (400 * e + j) % 400 == j % 400
  {
    assert 400 * e + j == 400 * (e + j / 400) + j % 400;
  }

  /** The calendar repeats every 400 years. */
  lemma EraShift(e: int, k: int)
    ensures DaysBeforeYear(400 * e + k) == DAYS_PER_ERA * e + DaysBeforeYear(k)
    ensures IsLeap(400 * e + k) == IsLeap(k)
  {
    EraDiv4(e, k + 3);
    EraDiv100(e, k + 99);
    EraDiv400(e, k + 399);
    EraDiv4(e, k);
    EraDiv100(e, k);
    EraDiv400(e, k);
  }

  lemma {:induction false} DaysBeforeYearMonotone(a: int, b: int)
    requires a <= b
    ensures DaysBeforeYear(a) <= DaysBeforeYear(b)
    decreases b - a
  {
    if a < b {
      YearStep(a);
      DaysBeforeYearMonotone(a + 1, b);
    }
  }

  lemma {:induction false} DaysBeforeMonthMonotone(a: int, b: int, y: int)
    requires 1 <= a <= b <= 13
    ensures DaysBeforeMonth(a, y) <= DaysBeforeMonth(b, y)
    decreases b - a
  {
    if a < b {
      MonthStep(a, y);
      DaysBeforeMonthMonotone(a + 1, b, y);
    }
  }

  /** A valid date's day number lies within its year and within its month. */
  lemma DayNumberWithin(d: Date)
    requires ValidDate(d)
    ensures DaysBeforeYear(d.year) + DaysBeforeMonth(d.month, d.year) <= DayNumber(d)
    ensures DayNumber(d) < DaysBeforeYear(d.year) + DaysBeforeMonth(d.month + 1, d.year)
    ensures DayNumber(d) < DaysBeforeYear(d.year + 1)
  {
    MonthStep(d.month, d.year);
    DaysBeforeMonthMonotone(d.month + 1, 13, d.year);
    YearStep(d.year);
  }

  /** Distinct valid dates have distinct day numbers. */
  lemma DayNumberInjective(a: Date, b: Date)
    requires ValidDate(a) && ValidDate(b)
    requires DayNumber(a) == DayNumber(b)
    ensures a == b
  {
    DayNumberWithin(a);
    DayNumberWithin(b);
    if a.year < b.year {
      DaysBeforeYearMonotone(a.year + 1, b.year);
      assert false;
    } else if b.year < a.year {
      DaysBeforeYearMonotone(b.year + 1, a.year);
      assert false;
    }
    if a.month < b.month {
      DaysBeforeMonthMonotone(a.month + 1, b.month, a.year);
      assert false;
    } else if b.month < a.month {
      DaysBeforeMonthMonotone(b.month + 1, a.month, a.year);
      assert false;
    }
  }

  /** The year of a 400-year cycle holding day `r` of the cycle, searching from year `k`. */
  function YearInEra(r: int, k: int): (y: int)
    requires 0 <= k < 400 && DaysBeforeYear(k) <= r < DAYS_PER_ERA
    ensures k <= y < 400 && DaysBeforeYear(y) <= r < DaysBeforeYear(y + 1)
    decreases 400 - k
  {
    if r < DaysBeforeYear(k + 1) then k else YearInEra(r, k + 1)
  }

  /** The month of year `y` holding day `r` of that year, searching from month `m`. */
  function MonthInYear(r: int, y: int, m: int): (n: int)
    requires 1 <= m <= 12 && DaysBeforeMonth(m, y) <= r < YearLength(y)
    ensures m <= n <= 12 && DaysBeforeMonth(n, y) <= r < DaysBeforeMonth(n + 1, y)
    decreases 12 - m
  {
    MonthStep(m, y);
    if r < DaysBeforeMonth(m + 1, y) then m else MonthInYear(r, y, m + 1)
  }

  /** The date of day number `n`: the inverse of DayNumber. */
  function CivilOfDay(n: int): (d: Date)
    ensures ValidDate(d) && DayNumber(d) == n
  {
    var era := n / DAYS_PER_ERA;
    var r := n % DAYS_PER_ERA;
    var k := YearInEra(r, 0);
    var doy := r - DaysBeforeYear(k);
    YearStep(k);
    var m := MonthInYear(doy, k, 1);
    var d := Date(400 * era + k, m, doy - DaysBeforeMonth(m, k) + 1);
    CivilOfDayValid(n, era, r, k, doy, m, d);
    d
  }

  lemma CivilOfDayValid(n: int, era: int, r: int, k: int, doy: int, m: int, d: Date)
    requires era == n / DAYS_PER_ERA && r == n % DAYS_PER_ERA
    requires 0 <= k < 400 && DaysBeforeYear(k) <= r
    requires doy == r - DaysBeforeYear(k)
    requires 1 <= m <= 12 && DaysBeforeMonth(m, k) <= doy < DaysBeforeMonth(m + 1, k)
    requires d == Date(400 * era + k, m, doy - DaysBeforeMonth(m, k) + 1)
    ensures ValidDate(d) && DayNumber(d) == n
  {
    EraShift(era, k);
    MonthStep(m, k);
    assert DaysIn(m, d.year) == DaysIn(m, k);
    assert DaysBeforeMonth(m, d.year) == DaysBeforeMonth(m, k);
    assert n == DAYS_PER_ERA * era + r;
  }

  lemma CivilOfDayNumber(d: Date)
    requires ValidDate(d)
    ensures CivilOfDay(DayNumber(d)) == d
  {
    DayNumberInjective(CivilOfDay(DayNumber(d)), d);
  }

  /** The first instant of a date, as `time.Date(y, m, d, 0, 0, 0, 0, time.UTC)` gives it. */
  function DayStart(d: Date): (t: Instant)
    requires ValidDate(d)
    ensures t % NANOS_PER_DAY == 0
  {
    var days := DayNumber(d) - UNIX_EPOCH_DAY;
    DivUnique(days * NANOS_PER_DAY, NANOS_PER_DAY, days, 0);
    days * NANOS_PER_DAY
  }

  /** The UTC calendar date an instant falls on. */
  function DateOf(t: Instant): (d: Date)
    ensures ValidDate(d)
    ensures DayStart(d) <= t < DayStart(d) + NANOS_PER_DAY
  {
    CivilOfDay(t / NANOS_PER_DAY + UNIX_EPOCH_DAY)
  }

  /** Go's `Time.Unix()`: whole seconds since the epoch, rounded toward minus infinity. */
  function UnixSeconds(t: Instant): (secs: int)
    ensures secs * NANOS_PER_SECOND <= t < secs * NANOS_PER_SECOND + NANOS_PER_SECOND
  {
    t / NANOS_PER_SECOND
  }

  /** A date's first instant lies on that date. */
  lemma DateOfDayStart(d: Date)
    requires ValidDate(d)
    ensures DateOf(DayStart(d)) == d
  {
    assert DayStart(d) / NANOS_PER_DAY == DayNumber(d) - UNIX_EPOCH_DAY;
    CivilOfDayNumber(d);
  }

  /** A date's midnight has Go's `Unix()` equal to its whole days since the epoch times 86400, and is a whole number of seconds. */
  lemma DayStartUnix(d: Date)
    requires ValidDate(d)
    ensures UnixSeconds(DayStart(d)) == (DayNumber(d) - UNIX_EPOCH_DAY) * SECONDS_PER_DAY
    ensures DayStart(d) == UnixSeconds(DayStart(d)) * NANOS_PER_SECOND
  {
  }

  /** A day start is a whole number of seconds. */
  lemma DayStartWhole(d: Date)
    requires ValidDate(d)
    ensures DayStart(d) % NANOS_PER_SECOND == 0
  {
    DayStartUnix(d);
  }

  lemma DayStartInjective(a: Date, b: Date)
    requires ValidDate(a) && ValidDate(b)
    requires DayStart(a) == DayStart(b)
    ensures a == b
  {
    DayNumberInjective(a, b);
  }
}
