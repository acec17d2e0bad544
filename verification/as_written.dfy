/**
 The holiday keys as `Calculadora_streamlit.py` builds and queries them.
 The fetched map is keyed by `datetime` values (midnight of each holiday),
 while `contar_dias_habiles` asks whether a `date` is a key. In Python a
 `date` never compares equal to a `datetime`, so that lookup always misses
 and no holiday is ever deducted. The in-range listing (`fecha.date()`) and
 the calendar (`datetime(anio, mes, dia) in feriados`) compare like with
 like and do see the holidays.
 */
module AsWritten {
  import opened CivilCalendar
  import opened BusinessDays
  import opened CalendarView

  /** A dictionary key: a plain `date`, or a `datetime` at midnight of that day. */
  datatype Stamp = DayStamp(day: Date) | MidnightStamp(day: Date)

  type StampedHolidays = map<Stamp, string>

  /** The fetched map: one `datetime` key per holiday, carrying its name. */
  function Fetched(holidays: Holidays): (r: StampedHolidays)
    ensures forall k :: k in r <==> k.MidnightStamp? && k.day in holidays
    ensures forall d :: d in holidays ==> r[MidnightStamp(d)] == holidays[d]
  {
    map k | k in (set d | d in holidays :: MidnightStamp(d)) :: holidays[k.day]
  }

  /** `{fecha.date(): nombre ...}`: the holidays of a fetched map, keyed by day. */
  function DayKeys(stamped: StampedHolidays): (r: Holidays)
    ensures forall d :: d in r <==> MidnightStamp(d) in stamped
    ensures forall d :: d in r ==> r[d] == stamped[MidnightStamp(d)]
  {
    map k | k in stamped && k.MidnightStamp? :: k.day := stamped[k]
  }

  /** Fetching and then keying by day gives back the holidays unchanged. */
  lemma DayKeysOfFetched(holidays: Holidays)
    ensures DayKeys(Fetched(holidays)) == holidays
  {
    var f := Fetched(holidays);
    var r := DayKeys(f);
    forall d | d in holidays
      ensures d in r && r[d] == holidays[d]
    {
      assert MidnightStamp(d) in f;
    }
    assert r.Keys == holidays.Keys;
  }

  /** The counter as written: a weekday counts unless the `date` itself is a key. */
  function CountAsWritten(start: Date, end: Date, stamped: StampedHolidays): (r: nat)
    decreases end - start
  {
    if end <= start then 0
    else (if IsWeekday(start) && DayStamp(start) !in stamped then 1 else 0)
         + CountAsWritten(start + 1, end, stamped)
  }

  /**
   With the fetched map, the counter as written deducts nothing: it returns
   the plain weekday count whatever the holidays are.
   */
  lemma {:induction false} AsWrittenIgnoresHolidays(start: Date, end: Date, holidays: Holidays)
    ensures CountAsWritten(start, end, Fetched(holidays)) == CountBusinessDays(start, end, map[])
    decreases end - start
  {
    if start < end {
      AsWrittenIgnoresHolidays(start + 1, end, holidays);
    }
  }

  /**
   One counterexample: Friday 2025-11-21 declared a holiday. The counter as
   written reports one business day for [2025-11-21, 2025-11-22); the
   intended count is zero.
   */
  lemma AsWrittenCountsAHoliday()
    ensures var d := ToOrdinal(Civil(2025, 11, 21));
            var holidays := map[d := "Feriado puente"];
            CountAsWritten(d, d + 1, Fetched(holidays)) == 1
            && CountBusinessDays(d, d + 1, holidays) == 0
  {
    KnownFriday();
    var d := ToOrdinal(Civil(2025, 11, 21));
    var holidays := map[d := "Feriado puente"];
    AsWrittenIgnoresHolidays(d, d + 1, holidays);
  }

  /**
   The counter as intended: look the day up among the holidays keyed by day,
   as the in-range listing does.
   */
  function CountCorrected(start: Date, end: Date, stamped: StampedHolidays): nat
  {
    CountBusinessDays(start, end, DayKeys(stamped))
  }

  /**
   With the fetched map the corrected counter deducts exactly the holidays
   that fall on a weekday inside the range.
   */
  lemma CorrectedDeductsHolidays(start: Date, end: Date, holidays: Holidays)
    ensures CountCorrected(start, end, Fetched(holidays)) == CountBusinessDays(start, end, holidays)
    ensures CountCorrected(start, end, Fetched(holidays)) + |WeekdayHolidays(start, end, holidays)|
         == CountAsWritten(start, end, Fetched(holidays))
  {
    DayKeysOfFetched(holidays);
    HolidayDeduction(start, end, holidays);
    AsWrittenIgnoresHolidays(start, end, holidays);
  }

  /**
   The corrected counter agrees with the green days of the calendar, which
   looks each day up among the same fetched holidays.
   */
  lemma CorrectedMatchesCalendar(start: Date, end: Date, holidays: Holidays)
    requires start >= 1 && end >= 1
    ensures GreenCount(Flatten(View(start, end, holidays))) == CountCorrected(start, end, Fetched(holidays))
  {
    ViewShowsRange(start, end, holidays);
    CorrectedDeductsHolidays(start, end, holidays);
  }
}
