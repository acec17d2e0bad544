/**
 The business-day counter of `Calculadora_streamlit.py`: over the half-open
 range [start, end) of day ordinals, count the days that fall Monday to
 Friday and are not keys of the holiday map.
 */
module BusinessDays {
  import opened CivilCalendar

  /** Holiday dates (as ordinals) mapped to their local names. */
  type Holidays = map<Date, string>

  /** Monday to Friday: `weekday() < 5`. */
  predicate IsWeekday(d: Date)
  {
    Weekday(d) < 5
  }

  predicate IsBusinessDay(d: Date, holidays: Holidays)
  {
    IsWeekday(d) && d !in holidays
  }

  /** `(end - start).days`: negative when the range is reversed. */
  function ElapsedDays(start: Date, end: Date): (r: int)
    ensures start + r == end
    ensures r <= 0 <==> end <= start
  {
    end - start
  }

  /**
   `contar_dias_habiles(start, end, holidays)`: the business days `d` with
   `start <= d < end`. An empty or reversed range counts nothing.
   */
  function CountBusinessDays(start: Date, end: Date, holidays: Holidays): (r: nat)
    ensures end <= start ==> r == 0
    ensures r <= if end <= start then 0 else ElapsedDays(start, end)
    decreases end - start
  {
    if end <= start then 0
    else (if IsBusinessDay(start, holidays) then 1 else 0) + CountBusinessDays(start + 1, end, holidays)
  }

  /** The business days of the range, as a set to enumerate. */
  ghost function BusinessDaySet(start: Date, end: Date, holidays: Holidays): set<Date>
  {
    set d | start <= d < end && IsBusinessDay(d, holidays)
  }

  /** The count is the size of the enumerated set of business days in range. */
  lemma {:induction false} CountIsCardinality(start: Date, end: Date, holidays: Holidays)
    ensures CountBusinessDays(start, end, holidays) == |BusinessDaySet(start, end, holidays)|
    decreases end - start
  {
    if end <= start {
      assert BusinessDaySet(start, end, holidays) == {};
    } else {
      CountIsCardinality(start + 1, end, holidays);
      var rest := BusinessDaySet(start + 1, end, holidays);
      if IsBusinessDay(start, holidays) {
        assert BusinessDaySet(start, end, holidays) == rest + {start};
        assert start !in rest;
      } else {
        assert BusinessDaySet(start, end, holidays) == rest;
      }
    }
  }

  /** Counting over [a, c) is counting over [a, b) and then over [b, c). */
  lemma {:induction false} CountAdditive(a: Date, b: Date, c: Date, holidays: Holidays)
    requires a <= b <= c
    ensures CountBusinessDays(a, c, holidays) == CountBusinessDays(a, b, holidays) + CountBusinessDays(b, c, holidays)
    decreases b - a
  {
    if a < b {
      CountAdditive(a + 1, b, c, holidays);
    }
  }

  /** Extending the range by its next day adds one exactly when that day is a business day. */
  lemma CountExtend(start: Date, end: Date, holidays: Holidays)
    requires start <= end
    ensures CountBusinessDays(start, end + 1, holidays)
         == CountBusinessDays(start, end, holidays) + (if IsBusinessDay(end, holidays) then 1 else 0)
  {
    CountAdditive(start, end, end + 1, holidays);
  }

  /**
   The generator of the source, step by step: `i` runs over `range(dias)`
   and each business day `start + i` adds one.
   */
  method CountBusinessDaysLoop(start: Date, end: Date, holidays: Holidays) returns (n: nat)
    ensures n == CountBusinessDays(start, end, holidays)
  {
    var dias := ElapsedDays(start, end);
    n := 0;
    var i := 0;
    while i < dias
      invariant 0 <= i && (dias >= 0 ==> i <= dias) && (dias < 0 ==> i == 0)
      invariant n == CountBusinessDays(start, start + i, holidays)
      decreases dias - i
    {
      CountExtend(start, start + i, holidays);
      if IsBusinessDay(start + i, holidays) {
        n := n + 1;
      }
      i := i + 1;
    }
  }

  /** Adding a remainder below 7 to a multiple of 7 leaves that remainder. */
  lemma ModSeven(q: int, r: int)
    requires 0 <= r < 7
    ensures (7 * q + r) % 7 == r
  {
  }

  /** The weekday `i` days after `a`, for `i` within one week. */
  lemma WeekdayShift(a: Date, i: int)
    requires 0 <= i < 7
    ensures Weekday(a + i) == (Weekday(a) + i) % 7
  {
    var w := Weekday(a);
    var q := (a + 6) / 7;
    assert a + 6 == 7 * q + w;
    if w + i < 7 {
      ModSeven(q, w + i);
    } else {
      ModSeven(q + 1, w + i - 7);
      ModSeven(0, w + i - 7);
    }
  }

  /** The weekday `i` days after `a`, for the seven days of a week starting at `a`. */
  lemma WeekdayOffsets(a: Date)
    ensures Weekday(a + 1) == (Weekday(a) + 1) % 7
    ensures Weekday(a + 2) == (Weekday(a) + 2) % 7
    ensures Weekday(a + 3) == (Weekday(a) + 3) % 7
    ensures Weekday(a + 4) == (Weekday(a) + 4) % 7
    ensures Weekday(a + 5) == (Weekday(a) + 5) % 7
    ensures Weekday(a + 6) == (Weekday(a) + 6) % 7
  {
    WeekdayShift(a, 1);
    WeekdayShift(a, 2);
    WeekdayShift(a, 3);
    WeekdayShift(a, 4);
    WeekdayShift(a, 5);
    WeekdayShift(a, 6);
  }

  /** Any seven consecutive days hold exactly five weekdays. */
  lemma {:induction false} FullWeek(a: Date)
    ensures CountBusinessDays(a, a + 7, map[]) == 5
  {
    var h: Holidays := map[];
    CountAdditive(a, a + 1, a + 7, h);
    CountAdditive(a + 1, a + 2, a + 7, h);
    CountAdditive(a + 2, a + 3, a + 7, h);
    CountAdditive(a + 3, a + 4, a + 7, h);
    CountAdditive(a + 4, a + 5, a + 7, h);
    CountAdditive(a + 5, a + 6, a + 7, h);
    var b := (i: int) => if IsWeekday(a + i) then 1 else 0;
    assert CountBusinessDays(a, a + 7, h) == b(0) + b(1) + b(2) + b(3) + b(4) + b(5) + b(6);
    WeekdayOffsets(a);
    var w := Weekday(a);
    assert 0 <= w < 7;
  }

  /** `k` whole weeks hold exactly `5 * k` weekdays. */
  lemma {:induction false} WholeWeeks(a: Date, k: nat)
    ensures CountBusinessDays(a, a + 7 * k, map[]) == 5 * k
  {
    if k > 0 {
      WholeWeeks(a, k - 1);
      FullWeek(a + 7 * (k - 1));
      CountAdditive(a, a + 7 * (k - 1), a + 7 * k, map[]);
    }
  }

  /**
   Declaring one more holiday removes exactly one business day when it is a
   weekday inside the range, and changes nothing when it falls on a weekend
   or outside the range.
   */
  lemma {:induction false} AddHoliday(start: Date, end: Date, holidays: Holidays, h: Date, name: string)
    requires h !in holidays
    ensures CountBusinessDays(start, end, holidays[h := name])
         == CountBusinessDays(start, end, holidays) - (if start <= h < end && IsWeekday(h) then 1 else 0)
    decreases end - start
  {
    if start < end {
      AddHoliday(start + 1, end, holidays, h, name);
    }
  }

  /** More holidays never mean more business days. */
  lemma {:induction false} MoreHolidaysFewerDays(start: Date, end: Date, holidays: Holidays, more: Holidays)
    requires holidays.Keys <= more.Keys
    ensures CountBusinessDays(start, end, more) <= CountBusinessDays(start, end, holidays)
    decreases end - start
  {
    if start < end {
      MoreHolidaysFewerDays(start + 1, end, holidays, more);
    }
  }

  /** The holidays of the range that fall Monday to Friday. */
  ghost function WeekdayHolidays(start: Date, end: Date, holidays: Holidays): set<Date>
  {
    set d | d in holidays && start <= d < end && IsWeekday(d)
  }

  /**
   The business-day count is the weekday count less the holidays that fall
   on a weekday inside the range; weekend holidays are not deducted twice.
   */
  lemma {:induction false} HolidayDeduction(start: Date, end: Date, holidays: Holidays)
    ensures CountBusinessDays(start, end, holidays) + |WeekdayHolidays(start, end, holidays)|
         == CountBusinessDays(start, end, map[])
    decreases end - start
  {
    if end <= start {
      assert WeekdayHolidays(start, end, holidays) == {};
    } else {
      HolidayDeduction(start + 1, end, holidays);
      var rest := WeekdayHolidays(start + 1, end, holidays);
      if start in holidays && IsWeekday(start) {
        assert WeekdayHolidays(start, end, holidays) == rest + {start};
        assert start !in rest;
      } else {
        assert WeekdayHolidays(start, end, holidays) == rest;
      }
    }
  }
}
