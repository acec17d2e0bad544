/**
 Proleptic Gregorian calendar arithmetic over day ordinals, in the
 convention of Python's `datetime.date`: the ordinal of 0001-01-01 is 1,
 `weekday()` is Monday == 0 .. Sunday == 6, and `calendar.monthrange`
 gives the number of days of a month.
 */
module CivilCalendar {

  /** A calendar date as a day ordinal (`date.toordinal()`); 1 is 0001-01-01. */
  type Date = int

  /** A calendar date as year, month and day of month. */
  datatype Civil = Civil(year: int, month: int, day: int)

  predicate IsLeap(y: int)
  {
    y % 4 == 0 && (y % 100 != 0 || y % 400 == 0)
  }

  /** Days in month `m` of year `y`: the second component of `monthrange(y, m)`. */
  function DaysInMonth(y: int, m: int): (r: int)
    requires 1 <= m <= 12
    ensures 28 <= r <= 31
    ensures r == 29 <==> m == 2 && IsLeap(y)
    ensures r == 28 <==> m == 2 && !IsLeap(y)
    ensures r == 30 <==> m == 4 || m == 6 || m == 9 || m == 11
  {
    if m == 2 then (if IsLeap(y) then 29 else 28)
    else if m == 4 || m == 6 || m == 9 || m == 11 then 30
    else 31
  }

  function DaysInYear(y: int): (r: int)
    ensures r == 365 || r == 366
    ensures r == 366 <==> IsLeap(y)
  {
    if IsLeap(y) then 366 else 365
  }

  /** Days of year `y` before the first of month `m`; month 13 stands for the next year. */
  function DaysBeforeMonth(y: int, m: int): (r: int)
    requires 1 <= m <= 13
    ensures 0 <= r
    ensures m == 1 ==> r == 0
  {
    var common :=
      if m <= 6 then
        (if m == 1 then 0 else if m == 2 then 31 else if m == 3 then 59
         else if m == 4 then 90 else if m == 5 then 120 else 151)
      else
        (if m == 7 then 181 else if m == 8 then 212 else if m == 9 then 243
         else if m == 10 then 273 else if m == 11 then 304 else if m == 12 then 334 else 365);
    common + (if m > 2 && IsLeap(y) then 1 else 0)
  }

  /** The months of a year are laid end to end and fill the year exactly. */
  lemma MonthsTileYear(y: int, m: int)
    requires 1 <= m <= 12
    ensures DaysBeforeMonth(y, m + 1) == DaysBeforeMonth(y, m) + DaysInMonth(y, m)
    ensures DaysBeforeMonth(y, 13) == DaysInYear(y)
  {
  }

  /** Days before the first of January of year `y`, counted from 0001-01-01. */
  function DaysBeforeYear(y: int): (r: int)
    requires y >= 1
    ensures r >= 0
    decreases y
  {
    if y == 1 then 0 else DaysBeforeYear(y - 1) + DaysInYear(y - 1)
  }

  /** Stepping `x` by one raises `x / 4`, `x / 100`, `x / 400` exactly when the divisor divides the new value. */
  lemma DivSteps(x: int)
    ensures x / 4 - (x - 1) / 4 == (if x % 4 == 0 then 1 else 0)
    ensures x / 100 - (x - 1) / 100 == (if x % 100 == 0 then 1 else 0)
    ensures x / 400 - (x - 1) / 400 == (if x % 400 == 0 then 1 else 0)
  {
  }

  /** The recursive count agrees with the closed form of the Gregorian leap rule. */
  lemma {:induction false} DaysBeforeYearClosedForm(y: int)
    requires y >= 1
    ensures DaysBeforeYear(y) == 365 * (y - 1) + (y - 1) / 4 - (y - 1) / 100 + (y - 1) / 400
    decreases y
  {
    if y > 1 {
      DaysBeforeYearClosedForm(y - 1);
      ClosedFormStep(y - 1);
    }
  }

  /** The closed form grows by the length of year `x` from year `x` to year `x + 1`. */
  lemma ClosedFormStep(x: int)
    ensures 365 * x + x / 4 - x / 100 + x / 400
         == 365 * (x - 1) + (x - 1) / 4 - (x - 1) / 100 + (x - 1) / 400 + DaysInYear(x)
  {
    DivSteps(x);
    if x % 400 == 0 {
      FourHundredsAreHundreds(x);
    }
    if x % 100 == 0 {
      HundredsAreFours(x);
    }
  }

  /** A multiple of 400 is a multiple of 100. */
  lemma FourHundredsAreHundreds(x: int)
    requires x % 400 == 0
    ensures x % 100 == 0
  {
    var k := x / 400;
    assert x == 100 * (4 * k);
  }

  /** A multiple of 100 is a multiple of 4. */
  lemma HundredsAreFours(x: int)
    requires x % 100 == 0
    ensures x % 4 == 0
  {
    var k := x / 100;
    assert x == 4 * (25 * k);
  }

  /** Later years start strictly later. */
  lemma {:induction false} DaysBeforeYearStrictlyIncreasing(a: int, b: int)
    requires 1 <= a < b
    ensures DaysBeforeYear(a) + DaysInYear(a) <= DaysBeforeYear(b)
    decreases b - a
  {
    if a + 1 < b {
      DaysBeforeYearStrictlyIncreasing(a, b - 1);
    }
  }

  predicate Valid(c: Civil)
  {
    && c.year >= 1
    && 1 <= c.month <= 12
    && 1 <= c.day <= DaysInMonth(c.year, c.month)
  }

  /** `date(y, m, d).toordinal()`. */
  function ToOrdinal(c: Civil): (r: Date)
    requires Valid(c)
    ensures DaysBeforeYear(c.year) < r <= DaysBeforeYear(c.year) + DaysInYear(c.year)
    ensures r >= 1
  {
    MonthsTileYear(c.year, c.month);
    MonthsTileYear(c.year, 12);
    assert DaysBeforeMonth(c.year, c.month + 1) <= DaysBeforeMonth(c.year, 13) by {
      MonthsBeforeIncreasing(c.year, c.month + 1, 13);
    }
    DaysBeforeYear(c.year) + DaysBeforeMonth(c.year, c.month) + c.day
  }

  lemma {:induction false} MonthsBeforeIncreasing(y: int, a: int, b: int)
    requires 1 <= a <= b <= 13
    ensures DaysBeforeMonth(y, a) <= DaysBeforeMonth(y, b)
    decreases b - a
  {
    if a < b {
      MonthsTileYear(y, b - 1);
      MonthsBeforeIncreasing(y, a, b - 1);
    }
  }

  /**
   The date of the `k`-th day (1-based) of year `y` counted from the first
   of month `m`.
   */
  function MonthOf(y: int, k: int, m: int): (r: Civil)
    requires y >= 1 && 1 <= m <= 12
    requires 1 <= k <= DaysInYear(y) - DaysBeforeMonth(y, m)
    ensures Valid(r) && r.year == y && m <= r.month
    ensures DaysBeforeMonth(y, r.month) + r.day == DaysBeforeMonth(y, m) + k
    decreases 12 - m
  {
    MonthsTileYear(y, m);
    if k > DaysInMonth(y, m) then
      if m == 12 then
        assert false; Civil(y, m, k)
      else
        MonthOf(y, k - DaysInMonth(y, m), m + 1)
    else
      Civil(y, m, k)
  }

  /** The date `n` days (1-based) after the end of year `y - 1`. */
  function FromOrdinalIn(n: int, y: int): (r: Civil)
    requires n >= 1 && y >= 1
    ensures Valid(r) && y <= r.year
    ensures ToOrdinal(r) == DaysBeforeYear(y) + n
    decreases n
  {
    if n > DaysInYear(y) then
      FromOrdinalIn(n - DaysInYear(y), y + 1)
    else
      MonthOf(y, n, 1)
  }

  /** `date.fromordinal(n)`. */
  function FromOrdinal(n: Date): (r: Civil)
    requires n >= 1
    ensures Valid(r)
    ensures ToOrdinal(r) == n
  {
    FromOrdinalIn(n, 1)
  }

  /** `date.fromordinal(n).year`. */
  function YearOf(n: Date): (r: int)
    requires n >= 1
    ensures r >= 1
    ensures DaysBeforeYear(r) < n <= DaysBeforeYear(r) + DaysInYear(r)
  {
    FromOrdinal(n).year
  }

  /** `date.weekday()`: 0 is Monday, 5 and 6 are Saturday and Sunday. */
  function Weekday(n: Date): (r: int)
    ensures 0 <= r < 7
  {
    (n + 6) % 7
  }

  /** The day of the year of `c`, counted from the first of month `m0`, lies within the rest of the year. */
  lemma MonthOfInverseBounds(y: int, m0: int, c: Civil)
    requires Valid(c) && c.year == y && 1 <= m0 <= c.month
    ensures 1 <= DaysBeforeMonth(y, c.month) - DaysBeforeMonth(y, m0) + c.day <= DaysInYear(y) - DaysBeforeMonth(y, m0)
  {
    MonthsTileYear(y, c.month);
    MonthsBeforeIncreasing(y, c.month + 1, 13);
    MonthsBeforeIncreasing(y, m0, c.month);
  }

  /** If a date is found from month `m0 + 1` on, it is found from month `m0` on. */
  lemma MonthOfEarlierMonth(y: int, m0: int, c: Civil)
    requires Valid(c) && c.year == y && 1 <= m0 < c.month
    requires 1 <= DaysBeforeMonth(y, c.month) - DaysBeforeMonth(y, m0 + 1) + c.day <= DaysInYear(y) - DaysBeforeMonth(y, m0 + 1)
    requires MonthOf(y, DaysBeforeMonth(y, c.month) - DaysBeforeMonth(y, m0 + 1) + c.day, m0 + 1) == c
    ensures 1 <= DaysBeforeMonth(y, c.month) - DaysBeforeMonth(y, m0) + c.day <= DaysInYear(y) - DaysBeforeMonth(y, m0)
    ensures MonthOf(y, DaysBeforeMonth(y, c.month) - DaysBeforeMonth(y, m0) + c.day, m0) == c
  {
    MonthOfInverseBounds(y, m0, c);
    MonthsTileYear(y, m0);
    MonthsBeforeIncreasing(y, m0 + 1, c.month);
    var k := DaysBeforeMonth(y, c.month) - DaysBeforeMonth(y, m0) + c.day;
    var rest := DaysBeforeMonth(y, c.month) - DaysBeforeMonth(y, m0 + 1) + c.day;
    assert k - DaysInMonth(y, m0) == rest;
    assert k > DaysInMonth(y, m0);
    assert MonthOf(y, k, m0) == MonthOf(y, rest, m0 + 1);
  }

  lemma {:induction false} MonthOfInverse(y: int, m0: int, c: Civil)
    requires Valid(c) && c.year == y && 1 <= m0 <= c.month
    ensures 1 <= DaysBeforeMonth(y, c.month) - DaysBeforeMonth(y, m0) + c.day <= DaysInYear(y) - DaysBeforeMonth(y, m0)
    ensures MonthOf(y, DaysBeforeMonth(y, c.month) - DaysBeforeMonth(y, m0) + c.day, m0) == c
    decreases c.month - m0
  {
    if m0 < c.month {
      MonthOfInverse(y, m0 + 1, c);
      MonthOfEarlierMonth(y, m0, c);
    } else {
      MonthOfInverseBounds(y, m0, c);
      assert MonthOf(y, c.day, c.month) == c;
    }
  }

  /** Within its own year, a date is found again from its day of the year. */
  lemma FromOrdinalInOwnYear(c: Civil)
    requires Valid(c)
    ensures ToOrdinal(c) - DaysBeforeYear(c.year) >= 1
    ensures FromOrdinalIn(ToOrdinal(c) - DaysBeforeYear(c.year), c.year) == c
  {
    var y := c.year;
    var n := ToOrdinal(c) - DaysBeforeYear(y);
    MonthOfInverse(y, 1, c);
    var k := DaysBeforeMonth(y, c.month) - DaysBeforeMonth(y, 1) + c.day;
    assert n == k;
    assert n <= DaysInYear(y);
    assert FromOrdinalIn(n, y) == MonthOf(y, k, 1);
  }

  /** A day past the end of year `y` is looked up from the next year on. */
  lemma FromOrdinalInSkipYear(n: int, y: int)
    requires y >= 1 && n > DaysInYear(y)
    ensures FromOrdinalIn(n, y) == FromOrdinalIn(n - DaysInYear(y), y + 1)
  {
  }

  /** If a date is found from year `y0 + 1` on, it is found from year `y0` on. */
  lemma FromOrdinalInEarlierYear(y0: int, c: Civil)
    requires Valid(c) && 1 <= y0 < c.year
    requires ToOrdinal(c) - DaysBeforeYear(y0 + 1) >= 1
    requires FromOrdinalIn(ToOrdinal(c) - DaysBeforeYear(y0 + 1), y0 + 1) == c
    ensures ToOrdinal(c) - DaysBeforeYear(y0) >= 1
    ensures FromOrdinalIn(ToOrdinal(c) - DaysBeforeYear(y0), y0) == c
  {
    var t := ToOrdinal(c);
    var n := t - DaysBeforeYear(y0);
    var rest := t - DaysBeforeYear(y0 + 1);
    assert DaysBeforeYear(y0 + 1) == DaysBeforeYear(y0) + DaysInYear(y0);
    assert n - DaysInYear(y0) == rest;
    FromOrdinalInSkipYear(n, y0);
  }

  lemma {:induction false} FromOrdinalInInverse(y0: int, c: Civil)
    requires Valid(c) && 1 <= y0 <= c.year
    ensures ToOrdinal(c) - DaysBeforeYear(y0) >= 1
    ensures FromOrdinalIn(ToOrdinal(c) - DaysBeforeYear(y0), y0) == c
    decreases c.year - y0
  {
    if y0 < c.year {
      FromOrdinalInInverse(y0 + 1, c);
      FromOrdinalInEarlierYear(y0, c);
    } else {
      assert y0 == c.year;
      FromOrdinalInOwnYear(c);
    }
  }

  /** Round trip civil -> ordinal -> civil: the ordinal determines the date. */
  lemma CivilRoundTrip(c: Civil)
    requires Valid(c)
    ensures FromOrdinal(ToOrdinal(c)) == c
  {
    FromOrdinalInInverse(1, c);
  }

  /** Distinct valid dates have distinct ordinals. */
  lemma ToOrdinalInjective(c: Civil, c': Civil)
    requires Valid(c) && Valid(c')
    ensures ToOrdinal(c) == ToOrdinal(c') <==> c == c'
  {
    CivilRoundTrip(c);
    CivilRoundTrip(c');
  }

  /** Later dates never fall in an earlier year. */
  lemma YearOfMonotonic(a: Date, b: Date)
    requires 1 <= a <= b
    ensures YearOf(a) <= YearOf(b)
  {
    if YearOf(a) > YearOf(b) {
      DaysBeforeYearStrictlyIncreasing(YearOf(b), YearOf(a));
    }
  }

  /** An ordinal lies in year `y` exactly when it is within that year's span of ordinals. */
  lemma YearOfCharacterization(n: Date, y: int)
    requires n >= 1 && y >= 1
    ensures YearOf(n) == y <==> DaysBeforeYear(y) < n <= DaysBeforeYear(y) + DaysInYear(y)
  {
    if YearOf(n) < y {
      DaysBeforeYearStrictlyIncreasing(YearOf(n), y);
    } else if YearOf(n) > y {
      DaysBeforeYearStrictlyIncreasing(y, YearOf(n));
    }
  }

  /** The weekday has period seven and advances by one from each day to the next. */
  lemma WeekdayPeriodic(n: Date)
    ensures Weekday(n + 7) == Weekday(n)
    ensures Weekday(n + 1) == (Weekday(n) + 1) % 7
  {
  }

  /** The epoch 0001-01-01 is a Monday. */
  lemma EpochIsMonday()
    ensures ToOrdinal(Civil(1, 1, 1)) == 1 && Weekday(ToOrdinal(Civil(1, 1, 1))) == 0
  {
  }

  /** 2025-11-21 has ordinal 739576 and is a Friday. */
  lemma {:induction false} KnownFriday()
    ensures ToOrdinal(Civil(2025, 11, 21)) == 739576
    ensures Weekday(ToOrdinal(Civil(2025, 11, 21))) == 4
  {
    DaysBeforeYearClosedForm(2025);
  }
}
